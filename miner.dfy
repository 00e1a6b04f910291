/** The commit miner of analytics/services/miner.py (and its copy
    backend/miner.py) around the author aggregation: the repository name
    taken from the clone URL, the finalisation of each author's bucket into
    its report (sorted frequency maps and the average streak), and the
    repository summary. */
module Miner {
  import opened Wrappers
  import opened Text
  import opened DateKeys
  import opened Streaks
  import opened Sorting
  import opened Grouping
  import opened AuthorAggregation

  /** `repo_name_from_url` given the path part of the URL: the last
      `/`-separated piece after dropping trailing slashes, without one
      trailing `.git`. */
  function RepoName(path: string): (name: string)
    ensures '/' !in name
  {
    var last := LastPiece(StripRight(path, '/'), '/');
    LastPieceSuffix(StripRight(path, '/'), '/');
    if EndsWith(last, ".git") then last[..|last| - 4] else last
  }

  /** The name read back: a repository `name` at the end of any path, with
      or without `.git`, is named `name`. */
  lemma RepoNameOf(prefix: string, name: string)
    requires '/' !in name && name != ""
    ensures RepoName(prefix + "/" + name + ".git") == name
    ensures !EndsWith(name, ".git") ==> RepoName(prefix + "/" + name) == name
  {
    var t := name + ".git";
    assert prefix + "/" + name + ".git" == prefix + "/" + t;
    RepoNameLast(prefix, t);
    assert EndsWith(t, ".git") && t[..|t| - 4] == name;
    RepoNameLast(prefix, name);
  }

  /** The last piece of a path ending in a separator-free, non-empty `t`. */
  lemma RepoNameLast(prefix: string, t: string)
    requires '/' !in t && t != ""
    ensures LastPiece(StripRight(prefix + "/" + t, '/'), '/') == t
  {
    var s := prefix + "/" + t;
    assert s == prefix + ['/'] + t;
    assert s[|s| - 1] == t[|t| - 1] != '/';
    StripRightKeeps(s, '/');
    LastPieceAfter(prefix, '/', t);
  }

  /** A trailing slash does not change the name. */
  lemma RepoNameTrailingSlash(path: string)
    ensures RepoName(path + "/") == RepoName(path)
  {
    StripRightKeeps(path, '/');
  }

  /** One author's entry of `results["authors"]`. */
  datatype AuthorReport = AuthorReport(
    name: string,
    email: string,
    commitCount: nat,
    totalInsertions: nat,
    totalDeletions: nat,
    totalFilesChanged: nat,
    weekly: seq<(string, nat)>,
    weekday: map<string, nat>,
    daily: seq<(string, nat)>,
    averageStreakDays: real,
    commits: seq<CommitRecord>)

  /** `results["repo_summary"]`. */
  datatype RepoSummary = RepoSummary(totalCommits: nat, minAuthorDate: Option<string>, maxAuthorDate: Option<string>)

  /** The day numbers of a set of `YYYY-MM-DD` keys, as `strptime(...).date()`
      reads them. */
  ghost function ActiveDays(dates: set<string>): set<int> {
    set d | d in dates && ParseDate(d).Some? :: DayOrdinal(d)
  }

  /** Different date keys are different days, so no day is lost. */
  lemma {:induction false} ActiveDaysCount(dates: set<string>)
    requires forall d :: d in dates ==> ParseDate(d).Some?
    ensures |ActiveDays(dates)| == |dates|
    decreases |dates|
  {
    if dates != {} {
      var d := Pick(dates);
      var rest := dates - {d};
      ActiveDaysCount(rest);
      assert ActiveDays(dates) == ActiveDays(rest) + {DayOrdinal(d)};
      if DayOrdinal(d) in ActiveDays(rest) {
        var e :| e in rest && DayOrdinal(e) == DayOrdinal(d);
        DayOrdinalInjective(e, d);
      }
    }
  }

  /** What the report of a bucket holds: the bucket's name, e-mail, totals,
      weekday counter and records; its commit count; its week and day
      counters as sorted items; and the average length of the runs of
      consecutive days among its commit dates, taken in ascending order. */
  ghost predicate ReportOf(r: AuthorReport, b: Bucket) {
    r.name == b.name && r.email == b.email && r.commitCount == |b.commits| &&
    r.totalInsertions == b.totalInsertions && r.totalDeletions == b.totalDeletions &&
    r.totalFilesChanged == b.totalFilesChanged &&
    IsSortedItems(r.weekly, b.weekly) && r.weekday == b.weekday && IsSortedItems(r.daily, b.daily) &&
    r.averageStreakDays == Average(StreakLengths(Ascending(ActiveDays(b.commitDates)))) &&
    r.commits == b.commits
  }

  /** The finalisation of one bucket (lines 177-192). Every commit date must
      read back as a date, as `strptime` demands; `AggregateAuthors` only
      builds such buckets (`BucketCounts`). The average is 0 without
      commit dates and otherwise between 1 and the number of commit dates. */
  method FinalizeAuthor(b: Bucket) returns (r: AuthorReport)
    requires forall d :: d in b.commitDates ==> ParseDate(d).Some?
    ensures ReportOf(r, b)
    ensures |b.commitDates| == 0 ==> r.averageStreakDays == 0.0
    ensures |b.commitDates| > 0 ==> 1.0 <= r.averageStreakDays <= |b.commitDates| as real
  {
    ghost var days := ActiveDays(b.commitDates);
    var uniqueDates := set d | d in b.commitDates && ParseDate(d).Some? :: DayOrdinal(d);
    var sortedDates := SortedDays(uniqueDates);
    var _, average := ComputeAverageStreak(sortedDates);
    ActiveDaysCount(b.commitDates);
    var weekly := SortedItems(b.weekly);
    var daily := SortedItems(b.daily);
    r := AuthorReport(b.name, b.email, |b.commits|, b.totalInsertions, b.totalDeletions,
      b.totalFilesChanged, weekly, b.weekday, daily, average, b.commits);
  }

  /** The total of the reports' commit counts. */
  function CommitCounts(rs: seq<AuthorReport>): nat {
    if |rs| == 0 then 0 else CommitCounts(rs[..|rs| - 1]) + rs[|rs| - 1].commitCount
  }

  /** The ISO text of an optional author date, as the summary writes it. */
  function IsoOf(ad: Option<AuthorDate>): (s: Option<string>)
    ensures s.Some? <==> ad.Some?
  {
    if ad.Some? then Some(ad.value.iso) else None
  }

  /** The report of a bucket, with the average streak of at least one day
      that a bucket with commit dates has. */
  ghost predicate Finalized(r: AuthorReport, b: Bucket) {
    ReportOf(r, b) && (|b.commitDates| > 0 ==> r.averageStreakDays >= 1.0)
  }

  /** The finalisation loop (lines 174-192): one report per author, in the
      order of `order`. */
  method FinalizeAuthors(order: seq<AuthorKey>, authors: map<AuthorKey, Bucket>) returns (reports: seq<AuthorReport>)
    requires forall k :: k in order ==> k in authors
    requires forall k :: k in order ==> forall d :: d in authors[k].commitDates ==> ParseDate(d).Some?
    ensures |reports| == |order|
    ensures forall j :: 0 <= j < |order| ==> Finalized(reports[j], authors[order[j]])
  {
    reports := [];
    for i := 0 to |order|
      invariant |reports| == i
      invariant forall j :: 0 <= j < i ==> Finalized(reports[j], authors[order[j]])
    {
      var r := FinalizeAuthor(authors[order[i]]);
      assert Finalized(r, authors[order[i]]);
      reports := reports + [r];
    }
  }

  /** The commit counts add up to the number of commits filed under the
      keys. */
  lemma {:induction false} CommitCountsUnder(rs: seq<AuthorReport>, log: seq<Commit>, ks: seq<AuthorKey>)
    requires |rs| == |ks|
    requires forall j :: 0 <= j < |ks| ==> rs[j].commitCount == |Select(log, KeyOf, ks[j])|
    ensures CommitCounts(rs) == CountUnder(log, KeyOf, ks)
  {
    if |ks| > 0 {
      CommitCountsUnder(rs[..|rs| - 1], log, ks[..|ks| - 1]);
    }
  }

  /** `main()` after the clone (lines 92-199), on the traversed commits: one
      report per author, in the order authors are first met, each the report
      of that author's bucket; every author has an average streak of at
      least one day; the commit counts add up to the number of commits; and
      the summary gives that number and the ISO texts of the earliest and
      latest author dates (`TimeBounds`). */
  method MineRepository(log: seq<Commit>) returns (reports: seq<AuthorReport>, summary: RepoSummary)
    ensures |reports| == |FirstSeen(log, KeyOf)|
    ensures forall i :: 0 <= i < |reports| ==>
      var k := FirstSeen(log, KeyOf)[i];
      ReportOf(reports[i], BucketOf(k, Select(log, KeyOf, k))) && reports[i].averageStreakDays >= 1.0
    ensures CommitCounts(reports) == |log|
    ensures summary.totalCommits == |log|
    ensures summary.minAuthorDate == IsoOf(Earliest(log)) && summary.maxAuthorDate == IsoOf(Latest(log))
  {
    var order, authors, earliest, latest := AggregateAuthors(log);
    AuthorsReady(log, order, authors);
    reports := FinalizeAuthors(order, authors);
    ReportsOfAuthors(log, order, authors, reports);
    CommitCountsUnder(reports, log, order);
    GroupsPartition(log, KeyOf);
    summary := RepoSummary(|log|, IsoOf(earliest), IsoOf(latest));
  }

  /** Every author met has a bucket with one record per commit and commit
      dates that all read back as dates. */
  lemma AuthorsReady(log: seq<Commit>, order: seq<AuthorKey>, authors: map<AuthorKey, Bucket>)
    requires order == FirstSeen(log, KeyOf)
    requires forall k :: k in authors <==> k in order
    requires forall k :: k in authors ==> authors[k] == BucketOf(k, Select(log, KeyOf, k))
    ensures forall k :: k in order ==>
      k in authors && |authors[k].commits| == |Select(log, KeyOf, k)| && |authors[k].commitDates| > 0 &&
      forall d :: d in authors[k].commitDates ==> ParseDate(d).Some?
  {
    FirstSeenFacts(log, KeyOf);
    forall k | k in order
      ensures var b := authors[k];
        |b.commits| == |Select(log, KeyOf, k)| && |b.commitDates| > 0 &&
        forall d :: d in b.commitDates ==> ParseDate(d).Some?
    {
      BucketReady(k, Select(log, KeyOf, k));
    }
  }

  /** The finalised reports of the authors in first-seen order are the
      reports of their buckets. */
  lemma ReportsOfAuthors(log: seq<Commit>, order: seq<AuthorKey>, authors: map<AuthorKey, Bucket>, reports: seq<AuthorReport>)
    requires order == FirstSeen(log, KeyOf) && |reports| == |order|
    requires forall k :: k in order ==> k in authors && |authors[k].commitDates| > 0
    requires forall k :: k in authors ==> authors[k] == BucketOf(k, Select(log, KeyOf, k))
    requires forall j :: 0 <= j < |order| ==> Finalized(reports[j], authors[order[j]])
    ensures forall i :: 0 <= i < |reports| ==>
      var k := FirstSeen(log, KeyOf)[i];
      ReportOf(reports[i], BucketOf(k, Select(log, KeyOf, k))) && reports[i].averageStreakDays >= 1.0
  {
    forall i | 0 <= i < |reports|
      ensures var k := FirstSeen(log, KeyOf)[i];
        ReportOf(reports[i], BucketOf(k, Select(log, KeyOf, k))) && reports[i].averageStreakDays >= 1.0
    {
      assert order[i] in order;
      assert Finalized(reports[i], authors[order[i]]);
    }
  }

  /** The bucket of an author with at least one commit has as many records
      as commits and at least one commit date, all of which read back as
      dates. */
  lemma BucketReady(k: AuthorKey, cs: seq<Commit>)
    requires |cs| > 0
    ensures var b := BucketOf(k, cs);
      |b.commits| == |cs| && |b.commitDates| > 0 &&
      forall d :: d in b.commitDates ==> ParseDate(d).Some?
  {
    BucketRecords(k, cs);
    BucketDaily(k, cs);
    DayTallyKeys(cs);
    DayKeysAllParse(cs);
    assert DayKeys(cs)[0] in BucketOf(k, cs).commitDates;
  }
}
