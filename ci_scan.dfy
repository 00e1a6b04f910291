/** `fetch_workflow_runs_covering` of analytics/services/github_ci.py: the
    paginated scan of a repository's workflow runs, newest first, until the
    target commits are covered, a page reaches back past the cutoff, a page
    comes back empty, or the page cap is reached. The HTTP requests are an
    oracle from page number to page; the parsing of timestamps is an oracle
    from text to instant. */
module CiScan {
  import opened Wrappers
  import opened CiRuns

  /** What requesting one page gives: its `workflow_runs` (empty when the
      key is missing), or an exception from `_get`. */
  datatype Page = Fetched(runs: seq<Run>) | Failed

  /** The oldest timestamp of a page's runs from this repository: none
      found, the least instant, or a timestamp `fromisoformat` rejects. */
  datatype PageTime = NoTimestamp | OldestAt(t: int) | Unreadable

  /** The scan's result `(all_runs, covered)`, or the page whose request or
      timestamp raised. */
  datatype ScanOutcome = Scanned(allRuns: seq<Run>, covered: set<string>) | ScanRaised(page: int)

  /** The fork filter: a run counts unless its head repository is named
      and differs from `owner/repo`. */
  predicate FromRepo(run: Run, repoFull: string) {
    !(Truthy(run.headRepository) && run.headRepository.value != repoFull)
  }

  /** The target SHAs that the runs from this repository cover. */
  function CoveredBy(runs: seq<Run>, repoFull: string, targets: set<string>): (c: set<string>)
    ensures c <= targets
  {
    if |runs| == 0 then {}
    else
      var run := runs[|runs| - 1];
      CoveredBy(runs[..|runs| - 1], repoFull, targets) +
        (if FromRepo(run, repoFull) && run.headSha.Some? && run.headSha.value in targets then {run.headSha.value} else {})
  }

  /** A SHA is covered exactly when it is a target and some run from this
      repository has it as head SHA. */
  lemma {:induction false} CoveredByFacts(runs: seq<Run>, repoFull: string, targets: set<string>)
    ensures forall s :: s in CoveredBy(runs, repoFull, targets) <==>
      s in targets && exists i :: 0 <= i < |runs| && FromRepo(runs[i], repoFull) && runs[i].headSha == Some(s)
  {
    if |runs| > 0 {
      var p := runs[..|runs| - 1];
      CoveredByFacts(p, repoFull, targets);
      forall s
        ensures (exists i :: 0 <= i < |runs| && FromRepo(runs[i], repoFull) && runs[i].headSha == Some(s)) <==>
          (exists i :: 0 <= i < |p| && FromRepo(p[i], repoFull) && p[i].headSha == Some(s)) ||
          (FromRepo(runs[|runs| - 1], repoFull) && runs[|runs| - 1].headSha == Some(s))
      {
        if exists i :: 0 <= i < |runs| && FromRepo(runs[i], repoFull) && runs[i].headSha == Some(s) {
          var i :| 0 <= i < |runs| && FromRepo(runs[i], repoFull) && runs[i].headSha == Some(s);
          if i < |p| {
            assert p[i] == runs[i];
          }
        }
        if exists i :: 0 <= i < |p| && FromRepo(p[i], repoFull) && p[i].headSha == Some(s) {
          var i :| 0 <= i < |p| && FromRepo(p[i], repoFull) && p[i].headSha == Some(s);
          assert runs[i] == p[i];
        }
      }
    }
  }

  lemma {:induction false} CoveredByAppend(a: seq<Run>, b: seq<Run>, repoFull: string, targets: set<string>)
    ensures CoveredBy(a + b, repoFull, targets) == CoveredBy(a, repoFull, targets) + CoveredBy(b, repoFull, targets)
  {
    if |b| == 0 {
      assert a + b == a;
    } else {
      var b' := b[..|b| - 1];
      assert (a + b)[..|a + b| - 1] == a + b';
      assert (a + b)[|a + b| - 1] == b[|b| - 1];
      CoveredByAppend(a, b', repoFull, targets);
    }
  }

  /** The instant of a run's timestamp, when it has a non-empty one. */
  function RunTime(run: Run, instant: string -> Option<int>): Option<Option<int>> {
    var ts := Timestamp(run);
    if Truthy(ts) then Some(instant(ts.value)) else None
  }

  /** `oldest` after the runs of a page: the least instant among the
      timestamps of the runs from this repository. */
  function PageOldest(runs: seq<Run>, repoFull: string, instant: string -> Option<int>): PageTime {
    if |runs| == 0 then NoTimestamp
    else
      var before := PageOldest(runs[..|runs| - 1], repoFull, instant);
      var run := runs[|runs| - 1];
      var time := RunTime(run, instant);
      if before.Unreadable? then Unreadable
      else if !FromRepo(run, repoFull) || time.None? then before
      else if time.value.None? then Unreadable
      else if before.NoTimestamp? || time.value.value < before.t then OldestAt(time.value.value)
      else before
  }

  /** A page's oldest time is unreadable exactly when one of its runs from
      this repository has a timestamp that does not parse; otherwise it is
      the least of their instants, and there is none only when none of them
      has a timestamp. */
  lemma {:induction false} PageOldestFacts(runs: seq<Run>, repoFull: string, instant: string -> Option<int>)
    ensures PageOldest(runs, repoFull, instant).Unreadable? <==>
      exists i :: 0 <= i < |runs| && FromRepo(runs[i], repoFull) && RunTime(runs[i], instant) == Some(None)
    ensures PageOldest(runs, repoFull, instant).NoTimestamp? ==>
      forall i :: 0 <= i < |runs| && FromRepo(runs[i], repoFull) ==> RunTime(runs[i], instant).None?
    ensures PageOldest(runs, repoFull, instant).OldestAt? ==>
      (exists i :: 0 <= i < |runs| && FromRepo(runs[i], repoFull) &&
        RunTime(runs[i], instant) == Some(Some(PageOldest(runs, repoFull, instant).t))) &&
      forall i :: 0 <= i < |runs| && FromRepo(runs[i], repoFull) && RunTime(runs[i], instant).Some? ==>
        RunTime(runs[i], instant).value.Some? && PageOldest(runs, repoFull, instant).t <= RunTime(runs[i], instant).value.value
  {
    if |runs| > 0 {
      var p := runs[..|runs| - 1];
      PageOldestFacts(p, repoFull, instant);
      assert forall i :: 0 <= i < |p| ==> runs[i] == p[i];
    }
  }

  /** The runs of the pages `1..n`, in page order. */
  function RunsUpTo(fetch: int -> Page, n: int): seq<Run>
    decreases n
  {
    if n <= 0 then []
    else RunsUpTo(fetch, n - 1) + (if fetch(n).Fetched? then fetch(n).runs else [])
  }

  /** The scan stops after page `p`: the page is empty, the runs so far
      cover every target, or the page's oldest time is before the cutoff. */
  predicate StopsAfter(fetch: int -> Page, p: int, repoFull: string, targets: set<string>, cutoff: int, instant: string -> Option<int>)
    requires fetch(p).Fetched?
  {
    var runs := fetch(p).runs;
    var oldest := PageOldest(runs, repoFull, instant);
    |runs| == 0 || targets <= CoveredBy(RunsUpTo(fetch, p), repoFull, targets) || (oldest.OldestAt? && oldest.t < cutoff)
  }

  /** Page `p` was fetched, its timestamps parsed, and the scan went on
      past it. */
  predicate GoesOnAfter(fetch: int -> Page, p: int, repoFull: string, targets: set<string>, cutoff: int, instant: string -> Option<int>) {
    fetch(p).Fetched? && !PageOldest(fetch(p).runs, repoFull, instant).Unreadable? &&
    !StopsAfter(fetch, p, repoFull, targets, cutoff, instant)
  }

  /** The inner loop over one page's runs (lines 116-131): its oldest time,
      and, unless a timestamp raised, `covered` with the targets the page
      covers added. */
  method ScanPage(runs: seq<Run>, repoFull: string, targets: set<string>, covered: set<string>, instant: string -> Option<int>)
    returns (covered': set<string>, oldest: PageTime)
    ensures oldest == PageOldest(runs, repoFull, instant)
    ensures !oldest.Unreadable? ==> covered' == covered + CoveredBy(runs, repoFull, targets)
  {
    covered', oldest := covered, NoTimestamp;
    for i := 0 to |runs|
      invariant covered' == covered + CoveredBy(runs[..i], repoFull, targets)
      invariant oldest == PageOldest(runs[..i], repoFull, instant)
      invariant !oldest.Unreadable?
    {
      var run := runs[i];
      assert runs[..i + 1][..i] == runs[..i];
      if Truthy(run.headRepository) && run.headRepository.value != repoFull {
        continue;
      }
      var sha := run.headSha;
      if sha.Some? && sha.value in targets {
        covered' := covered' + {sha.value};
      }
      var ts := Timestamp(run);
      if Truthy(ts) {
        var dt := instant(ts.value);
        if dt.None? {
          PageOldestFacts(runs, repoFull, instant);
          assert runs[i] == run;
          return covered', Unreadable;
        }
        if oldest.NoTimestamp? || dt.value < oldest.t {
          oldest := OldestAt(dt.value);
        }
      }
    }
    assert runs[..|runs|] == runs;
  }

  /** The scan (lines 95-145) for `owner/repo`, with the cutoff instant, the
      target SHAs and the page cap. `pages` is the last page requested: the
      pages are requested in order from 1, never past the cap; each page
      before the last was fetched and did not stop the scan; the scan ends
      because the cap was reached, or the last page stops it, or its request
      or one of its timestamps raised. `all_runs` is every fetched run in
      page order, fork runs included, and `covered` the targets covered by
      runs from this repository. */
  method FetchWorkflowRunsCovering(
    owner: string, repo: string, cutoff: int, targets: set<string>, hardPageCap: int,
    fetch: int -> Page, instant: string -> Option<int>)
    returns (outcome: ScanOutcome, pages: int)
    ensures 0 <= pages && pages <= (if hardPageCap > 0 then hardPageCap else 0)
    ensures forall p :: 1 <= p < pages ==> GoesOnAfter(fetch, p, owner + "/" + repo, targets, cutoff, instant)
    ensures outcome.Scanned? ==>
      outcome.allRuns == RunsUpTo(fetch, pages) &&
      outcome.covered == CoveredBy(outcome.allRuns, owner + "/" + repo, targets) &&
      (pages >= 1 ==> fetch(pages).Fetched? && !PageOldest(fetch(pages).runs, owner + "/" + repo, instant).Unreadable?) &&
      (pages == (if hardPageCap > 0 then hardPageCap else 0) || (pages >= 1 && fetch(pages).Fetched? &&
        StopsAfter(fetch, pages, owner + "/" + repo, targets, cutoff, instant)))
    ensures outcome.ScanRaised? ==>
      outcome.page == pages >= 1 &&
      (fetch(pages).Failed? || PageOldest(fetch(pages).runs, owner + "/" + repo, instant).Unreadable?)
    ensures targets == {} ==> pages <= 1
  {
    var repoFull := owner + "/" + repo;
    var allRuns: seq<Run> := [];
    var covered: set<string> := {};
    var page := 1;
    pages := 0;
    while page <= hardPageCap
      invariant 1 <= page && pages == page - 1
      invariant page <= (if hardPageCap > 0 then hardPageCap else 0) + 1
      invariant targets == {} ==> page <= 1
      invariant forall p :: 1 <= p < page ==> GoesOnAfter(fetch, p, repoFull, targets, cutoff, instant)
      invariant allRuns == RunsUpTo(fetch, page - 1)
      invariant covered == CoveredBy(allRuns, repoFull, targets)
      decreases hardPageCap - page
    {
      pages := page;
      var response := fetch(page);
      if response.Failed? {
        return ScanRaised(page), pages;
      }
      var runs := response.runs;
      if |runs| == 0 {
        break;
      }
      CoveredByAppend(allRuns, runs, repoFull, targets);
      allRuns := allRuns + runs;
      var oldest;
      covered, oldest := ScanPage(runs, repoFull, targets, covered, instant);
      if oldest.Unreadable? {
        return ScanRaised(page), pages;
      }
      if targets <= covered {
        break;
      }
      if oldest.OldestAt? && oldest.t < cutoff {
        break;
      }
      assert allRuns == RunsUpTo(fetch, page);
      assert GoesOnAfter(fetch, page, repoFull, targets, cutoff, instant);
      page := page + 1;
      pages := page - 1;
    }
    if page > hardPageCap && pages >= 1 {
      assert GoesOnAfter(fetch, pages, repoFull, targets, cutoff, instant);
    }
    outcome := Scanned(allRuns, covered);
  }
}
