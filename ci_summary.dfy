/** `summarize_runs_by_sha` of analytics/services/github_ci.py: the workflow
    runs collapsed into one summary per head commit, with the run count, a
    tally of conclusions and the latest run. */
module CiSummary {
  import opened Wrappers
  import opened Text
  import opened Counting
  import opened Grouping
  import opened CiRuns

  /** The conclusions the tally counts; any other conclusion is not counted. */
  const Conclusions: set<string> :=
    {"success", "failure", "cancelled", "timed_out", "skipped", "neutral", "action_required"}

  /** The `latest_run` dict: the fields of the run that it copies. */
  datatype LatestRun = LatestRun(
    id: Option<int>,
    name: Option<string>,
    event: Option<string>,
    status: Option<string>,
    conclusion: Option<string>,
    createdAt: Option<string>,
    updatedAt: Option<string>,
    htmlUrl: Option<string>,
    headBranch: Option<string>,
    workflowId: Option<int>)

  /** One commit's entry of the result. */
  datatype ShaSummary = ShaSummary(hasActionsRuns: bool, runsCount: nat, latestRun: Option<LatestRun>, tally: map<string, nat>)

  function Snapshot(run: Run): LatestRun {
    LatestRun(run.id, run.name, run.event, run.status, run.conclusion, run.createdAt, run.updatedAt,
      run.htmlUrl, run.headBranch, run.workflowId)
  }

  /** The runs that have a non-empty head SHA, in order; the others are
      skipped. */
  function Kept(runs: seq<Run>): (kept: seq<Run>)
    ensures |kept| <= |runs|
    ensures forall i :: 0 <= i < |kept| ==> Truthy(kept[i].headSha)
  {
    if |runs| == 0 then []
    else Kept(runs[..|runs| - 1]) + (if Truthy(runs[|runs| - 1].headSha) then [runs[|runs| - 1]] else [])
  }

  /** A run is kept exactly when it has a non-empty head SHA. */
  lemma {:induction false} KeptMembers(runs: seq<Run>)
    ensures forall r :: r in Kept(runs) <==> r in runs && Truthy(r.headSha)
  {
    if |runs| > 0 {
      var p := runs[..|runs| - 1];
      KeptMembers(p);
      assert runs == p + [runs[|runs| - 1]];
    }
  }

  lemma KeptSnoc(runs: seq<Run>, i: int)
    requires 0 <= i < |runs|
    ensures Kept(runs[..i + 1]) == Kept(runs[..i]) + (if Truthy(runs[i].headSha) then [runs[i]] else [])
  {
    assert runs[..i + 1][..i] == runs[..i];
  }

  /** The key of a kept run. */
  function ShaOf(run: Run): string {
    if run.headSha.Some? then run.headSha.value else ""
  }

  /** `(run.get("conclusion") or "").lower()`: empty for a missing
      conclusion, otherwise as long as the conclusion and free of upper-case
      ASCII letters. */
  function ConclusionKey(run: Run): (k: string)
    ensures run.conclusion.None? ==> k == ""
    ensures run.conclusion.Some? ==> |k| == |run.conclusion.value|
    ensures forall i :: 0 <= i < |k| ==> !('A' <= k[i] <= 'Z')
  {
    LowerAscii(if run.conclusion.Some? then run.conclusion.value else "")
  }

  /** The value `setdefault` creates for a new SHA. */
  function NewSummary(sha: string): ShaSummary {
    ShaSummary(true, 0, None, map c | c in Conclusions :: 0)
  }

  /** `is_newer`: there is no latest run yet or its `updated_at` is missing,
      or both the latest's `updated_at` and the run's timestamp are non-empty
      and the run's is greater as a string. */
  predicate IsNewer(latest: Option<LatestRun>, run: Run)
    ensures latest.None? ==> IsNewer(latest, run)
    ensures latest.Some? && latest.value.updatedAt.None? ==> IsNewer(latest, run)
    ensures latest.Some? && latest.value.updatedAt == Some("") ==> !IsNewer(latest, run)
    ensures !Truthy(Timestamp(run)) && latest.Some? && latest.value.updatedAt.Some? ==> !IsNewer(latest, run)
    ensures latest.Some? && Truthy(latest.value.updatedAt) && Truthy(Timestamp(run)) ==>
      (IsNewer(latest, run) <==> StrLess(latest.value.updatedAt.value, Timestamp(run).value))
  {
    var oldTs := if latest.Some? then latest.value.updatedAt else None;
    var newTs := Timestamp(run);
    oldTs.None? || (Truthy(newTs) && Truthy(oldTs) && StrLess(oldTs.value, newTs.value))
  }

  /** One iteration of the loop on the summary of the run's SHA. */
  function AddRun(sha: string, d: ShaSummary, run: Run): ShaSummary {
    var concl := ConclusionKey(run);
    ShaSummary(
      d.hasActionsRuns,
      d.runsCount + 1,
      if IsNewer(d.latestRun, run) then Some(Snapshot(run)) else d.latestRun,
      if concl in d.tally then Inc(d.tally, concl) else d.tally)
  }

  /** One more run counts once more, keeps the seven tally keys, raises the
      tally's sum by at most one and leaves every other conclusion's count
      alone; the latest run is either kept or becomes this run. */
  lemma AddRunFacts(sha: string, d: ShaSummary, run: Run)
    ensures var r := AddRun(sha, d, run);
      r.hasActionsRuns == d.hasActionsRuns && r.runsCount == d.runsCount + 1 &&
      r.tally.Keys == d.tally.Keys && MapSum(r.tally) <= MapSum(d.tally) + 1 &&
      (forall c :: c in d.tally && c != ConclusionKey(run) ==> r.tally[c] == d.tally[c]) &&
      (r.latestRun == d.latestRun || r.latestRun == Some(Snapshot(run)))
  {
    var concl := ConclusionKey(run);
    if concl in d.tally {
      IncSum(d.tally, concl);
    }
  }

  /** The summary of a SHA after its runs `rs`. */
  function SummaryOf(sha: string, rs: seq<Run>): ShaSummary {
    FoldFor(NewSummary, AddRun, sha, rs)
  }

  lemma SummaryStep(sha: string, rs: seq<Run>)
    requires |rs| > 0
    ensures SummaryOf(sha, rs) == AddRun(sha, SummaryOf(sha, rs[..|rs| - 1]), rs[|rs| - 1])
  {
  }

  /** The summary counts every run of its SHA. */
  lemma {:induction false} SummaryCount(sha: string, rs: seq<Run>)
    ensures SummaryOf(sha, rs).hasActionsRuns
    ensures SummaryOf(sha, rs).runsCount == |rs|
  {
    if |rs| > 0 {
      SummaryCount(sha, rs[..|rs| - 1]);
    }
  }

  /** The conclusion keys of the runs, in order. */
  function ConclusionKeys(rs: seq<Run>): (ks: seq<string>)
    ensures |ks| == |rs|
    ensures forall i :: 0 <= i < |rs| ==> ks[i] == ConclusionKey(rs[i])
  {
    if |rs| == 0 then [] else ConclusionKeys(rs[..|rs| - 1]) + [ConclusionKey(rs[|rs| - 1])]
  }

  /** The tally has exactly the seven conclusions as keys, each counting the
      runs with that conclusion, case aside; runs with another conclusion or
      none are not counted, so the tally adds up to at most the run count. */
  lemma {:induction false} SummaryTally(sha: string, rs: seq<Run>)
    ensures SummaryOf(sha, rs).tally.Keys == Conclusions
    ensures forall c :: c in Conclusions ==> SummaryOf(sha, rs).tally[c] == Count(ConclusionKeys(rs), c)
    ensures MapSum(SummaryOf(sha, rs).tally) <= |rs|
  {
    var tally := SummaryOf(sha, rs).tally;
    if |rs| == 0 {
      MapSumZero(tally);
    } else {
      var p := rs[..|rs| - 1];
      var run := rs[|rs| - 1];
      SummaryTally(sha, p);
      SummaryStep(sha, rs);
      var before := SummaryOf(sha, p).tally;
      var concl := ConclusionKey(run);
      assert ConclusionKeys(rs) == ConclusionKeys(p) + [concl];
      forall c | c in Conclusions
        ensures tally[c] == Count(ConclusionKeys(rs), c)
      {
        assert ConclusionKeys(rs)[..|p|] == ConclusionKeys(p);
      }
      if concl in before {
        IncSum(before, concl);
      }
    }
  }

  /** There is a latest run exactly when the SHA has runs, and it is a copy
      of one of them. */
  lemma {:induction false} SummaryLatest(sha: string, rs: seq<Run>)
    ensures SummaryOf(sha, rs).latestRun.Some? <==> |rs| > 0
    ensures SummaryOf(sha, rs).latestRun.Some? ==>
      exists i :: 0 <= i < |rs| && SummaryOf(sha, rs).latestRun.value == Snapshot(rs[i])
  {
    if |rs| > 0 {
      var p := rs[..|rs| - 1];
      SummaryLatest(sha, p);
      SummaryStep(sha, rs);
      if SummaryOf(sha, rs).latestRun != Some(Snapshot(rs[|rs| - 1])) {
        var i :| 0 <= i < |p| && SummaryOf(sha, p).latestRun.value == Snapshot(p[i]);
        assert rs[i] == p[i];
      }
    }
  }

  /** The update time of a run, empty when missing. */
  function Updated(run: Run): string {
    if run.updatedAt.Some? then run.updatedAt.value else ""
  }

  /** When every run has a non-empty `updated_at`, the latest run is the
      first of the runs with the greatest `updated_at`: every earlier run's
      is smaller and no later run's is greater. */
  lemma {:induction false} LatestIsNewest(sha: string, rs: seq<Run>) returns (i: nat)
    requires |rs| > 0
    requires forall j :: 0 <= j < |rs| ==> Truthy(rs[j].updatedAt)
    ensures i < |rs| && SummaryOf(sha, rs).latestRun == Some(Snapshot(rs[i]))
    ensures forall j :: 0 <= j < i ==> StrLess(Updated(rs[j]), Updated(rs[i]))
    ensures forall j :: i < j < |rs| ==> !StrLess(Updated(rs[i]), Updated(rs[j]))
  {
    var n := |rs|;
    var p := rs[..n - 1];
    var x := rs[n - 1];
    SummaryStep(sha, rs);
    if n == 1 {
      i := 0;
    } else {
      var k := LatestIsNewest(sha, p);
      assert forall j :: 0 <= j < n - 1 ==> rs[j] == p[j];
      if StrLess(Updated(rs[k]), Updated(x)) {
        i := n - 1;
        forall j | 0 <= j < n - 1
          ensures StrLess(Updated(rs[j]), Updated(x))
        {
          if j < k {
            StrLessTransitive(Updated(rs[j]), Updated(rs[k]), Updated(x));
          } else if k < j && Updated(rs[j]) != Updated(rs[k]) {
            StrLessTotal(Updated(rs[j]), Updated(rs[k]));
            StrLessTransitive(Updated(rs[j]), Updated(rs[k]), Updated(x));
          }
        }
      } else {
        i := k;
      }
    }
  }

  /** The total of the run counts of the SHAs listed in `order`. */
  function TotalRuns(order: seq<string>, bySha: map<string, ShaSummary>): nat
    requires forall s :: s in order ==> s in bySha
  {
    if |order| == 0 then 0 else TotalRuns(order[..|order| - 1], bySha) + bySha[order[|order| - 1]].runsCount
  }

  lemma {:induction false} TotalRunsUnder(order: seq<string>, bySha: map<string, ShaSummary>, kept: seq<Run>)
    requires forall s :: s in order ==> s in bySha && bySha[s].runsCount == |Select(kept, ShaOf, s)|
    ensures TotalRuns(order, bySha) == CountUnder(kept, ShaOf, order)
  {
    if |order| > 0 {
      TotalRunsUnder(order[..|order| - 1], bySha, kept);
    }
  }

  /** `summarize_runs_by_sha(workflow_runs)`: the SHAs in the order first
      met among the runs with a non-empty head SHA, each mapped to the
      summary of its runs in order; the run counts add up to the number of
      such runs. */
  method SummarizeRunsBySha(runs: seq<Run>) returns (order: seq<string>, bySha: map<string, ShaSummary>)
    ensures order == FirstSeen(Kept(runs), ShaOf)
    ensures forall s :: s in bySha <==> s in order
    ensures forall s :: s in bySha ==> bySha[s] == SummaryOf(s, Select(Kept(runs), ShaOf, s))
    ensures TotalRuns(order, bySha) == |Kept(runs)|
  {
    order, bySha := [], map[];
    ghost var kept: seq<Run> := [];
    for i := 0 to |runs|
      invariant kept == Kept(runs[..i])
      invariant order == FirstSeen(kept, ShaOf)
      invariant Grouped(kept, ShaOf, NewSummary, AddRun, bySha)
    {
      var run := runs[i];
      KeptSnoc(runs, i);
      var sha := run.headSha;
      if !(sha.Some? && sha.value != "") {
        continue;
      }
      AddToGrouped(kept, run, ShaOf, NewSummary, AddRun, bySha);
      FirstSeenSnoc(kept, run, ShaOf);
      ghost var before := bySha;
      if sha.value !in bySha {
        bySha := bySha[sha.value := NewSummary(sha.value)];
        order := order + [sha.value];
      }
      AddToInTwoSteps(before, ShaOf, NewSummary, AddRun, run);
      bySha := bySha[sha.value := AddRun(sha.value, bySha[sha.value], run)];
      kept := kept + [run];
    }
    PrefixAll(runs);
    FirstSeenFacts(kept, ShaOf);
    forall s | s in order
      ensures s in bySha && bySha[s].runsCount == |Select(kept, ShaOf, s)|
    {
      SummaryCount(s, Select(kept, ShaOf, s));
    }
    TotalRunsUnder(order, bySha, kept);
    GroupsPartition(kept, ShaOf);
  }
}
