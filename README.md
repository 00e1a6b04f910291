# RepoPerformanceEval: the commit miner and the GitHub Actions helpers, in Dafny

This project models two parts of RepoPerformanceEval:

- **The commit miner** (`analytics/services/miner.py`, with an identical copy at `backend/miner.py`).
  - It derives the repository name from the clone URL.
  - It traverses the commit log twice: the first traversal only counts the commits, and the second files each commit under its author's `(name, email)`, in a bucket holding:
    - the commit records;
    - the ISO-week, weekday and calendar-day frequency counters;
    - the insertion, deletion and file totals;
    - the set of commit dates.
  - It tracks the earliest and latest author dates.
  - It finalises each bucket into a report, with sorted counters and the average length of streaks of consecutive active days.
  - It writes a repository summary.
- **The CI helpers** (`analytics/services/github_ci.py`):
  - the owner taken from a repository URL;
  - the rate-limit sleep;
  - the GET with retries and backoff;
  - the paginated scan of workflow runs until the target commits are covered or the cutoff is passed;
  - the collapse of workflow runs into one summary per head commit.

Stateful loops are `method`s proved against specification functions:
- the aggregation loop (`AggregateAuthors`);
- the streak loop;
- the sorting loops;
- the retry loop;
- the page loop and the run loop of the scan;
- the summary loop.

The specification functions are folds over the input, and lemmas state what the folds compute. Examples:
- a bucket's counters are tallies of its commits' keys and sum to its commit count;
- the streaks partition the active days;
- the covered SHAs are exactly the targets that some run from the repository has as its head;
- the latest run is the first run with the greatest update time.

Python's datetime library enters through these models:
- `Calendar` models the proleptic Gregorian calendar of `datetime.date`. It covers `toordinal`, `isocalendar` and `weekday`, with `_days_before_year` proved equal to the year-by-year count.
- `DateKeys` models the three keys:
  - `strftime("%A")`;
  - the `"<isoYear>-W<ww>"` bucket, which is an ISO 8601 week date (section 4.1.4 of ISO 8601);
  - `strftime("%Y-%m-%d")`, an ISO 8601 calendar date (section 4.1.2), with the `strptime` that reads it back.

A commit's author date is a value with these parts:
- its instant (what `<` compares);
- its `isoformat()` text;
- its local calendar date and hour;
- the weekday and ISO week the library reports.

`LibraryAgrees` ties those last two to the calendar model.

Behaviour of the code worth knowing (the model follows it):

- **Reset sleeps count against the retry limit.** In `_get`, a reset sleep on a 403 is followed by `continue` inside `for i in range(max_retries)`. So it uses up one of the `max_retries` attempts (`CiRequests.Get`).
- **Statuses of 600 and above are returned.** `raise_for_status` raises only for 400 to 599, so such a response is returned, not raised.
- **A `max_retries` of 0 or less ends in an unbound name.** The final `r.raise_for_status()` refers to a name the loop never bound, which raises `UnboundLocalError`. This is the `Unbound` outcome.
- **The scan keeps fork runs.** The scan appends every run of a page to `all_runs`, fork runs included. The fork filter only applies to coverage and to the oldest timestamp.
- **A latest run with no `updated_at` is always displaced.** `summarize_runs_by_sha` compares against the latest run's `updated_at` only. When that field is missing (`None`), any later run replaces the latest run, whatever its timestamp. When it is the empty string, no later run does. The "latest run has the greatest timestamp" property is therefore proved under the condition that every run has a non-empty `updated_at` (`CiSummary.LatestIsNewest`).
- **The miner does not join commits with CI runs.** Its output holds commit data only; the CI helpers are separate functions.

## Model

| member | source | states |
|---|---|---|
| Miner.RepoName | analytics/services/miner.py:14-20 | the repository name never contains a `/` |
| Miner.RepoNameOf | analytics/services/miner.py:14-20 | a non-empty, slash-free `name` at the end of any path is read back as `name`, with or without a trailing `.git` |
| Miner.RepoNameTrailingSlash | analytics/services/miner.py:16 | trailing slashes on the path do not change the name |
| Miner.RepoNameLast | analytics/services/miner.py:16 | the last piece of `prefix/t`, after `rstrip("/")`, is `t` |
| Text.LastPieceSuffix | analytics/services/miner.py:16 | `split("/")[-1]` is the slash-free suffix of the string that follows its last separator |
| Text.LastPieceOfSplit | analytics/services/miner.py:16 | the last element of `split` is that suffix |
| Text.LastPieceAfter | analytics/services/miner.py:16 | after a separator, a separator-free tail is the last piece |
| Text.StripRightKeeps | analytics/services/miner.py:16 | `rstrip` leaves a string that does not end in the character unchanged, and one more trailing copy changes nothing |
| Text.StripRight | analytics/services/miner.py:16 | `rstrip(c)` is the longest prefix not ending in `c`; only copies of `c` are dropped |
| Text.Strip | analytics/services/github_ci.py:21 | `strip(c)` neither starts nor ends with `c` |
| Text.Find | analytics/services/github_ci.py:22 | the first occurrence of the separator, or the length when there is none |
| Text.Split | analytics/services/github_ci.py:22 | `split` always gives at least one piece |
| Text.StripLeft | analytics/services/github_ci.py:21 | the left strip drops only leading copies of the character and leaves a string not starting with it |
| Text.SplitPieces | analytics/services/github_ci.py:22-23 | no piece of `split` holds the separator; there is one piece exactly when the separator is absent |
| Text.JoinSplit | analytics/services/github_ci.py:22 | joining the pieces of `split` with the separator gives back the string |
| Text.SplitFirst | analytics/services/github_ci.py:25 | the first piece of `split` is the text before the first separator |
| DateKeys.WeekdayName | analytics/services/miner.py:22-23 | `weekday_name` is one of the seven English day names |
| DateKeys.WeekdayNamesExact | analytics/services/miner.py:22-23 | different weekdays get different names, and every one of the seven names is used |
| DateKeys.WeekdayNameInjective | analytics/services/miner.py:22-23 | two weekdays have the same name exactly when they are equal |
| DateKeys.WeekdayNameCycle | analytics/services/miner.py:22-23 | two dates have the same weekday name exactly when their day numbers are a whole number of weeks apart |
| Calendar.WeekdayIndex | analytics/services/miner.py:23 | `date.weekday()` is between 0 and 6 |
| DateKeys.IsoWeekBucket | analytics/services/miner.py:25-29 | the bucket is the ISO year in decimal, `-W`, and the week as two digits, and the digits read back as the year and the week |
| DateKeys.IsoWeekBucketRoundTrip | analytics/services/miner.py:25-29 | parsing a bucket gives back its year and week |
| DateKeys.IsoWeekBucketInjective | analytics/services/miner.py:25-29 | different ISO weeks never share a bucket |
| DateKeys.WeekBucketSameWeek | analytics/services/miner.py:25-29 | two dates share a bucket exactly when they fall in the same Monday-to-Sunday week |
| Calendar.IsoCalendarFacts | analytics/services/miner.py:26-28 | `isocalendar()` places the day in week `week` of ISO year `year`: on or after that year's first Monday and before the next year's, on the weekday `weekday()` reports, with the ISO year within one of the calendar year |
| Calendar.SameIsoWeek | analytics/services/miner.py:26-28 | two days have the same ISO year and week exactly when they have the same Monday |
| Calendar.IsoYearLength | analytics/services/miner.py:26-28 | every ISO year starts on a Monday within three days of 1 January and is 52 or 53 weeks long |
| Calendar.IsoCalendarOfDay | analytics/services/miner.py:26-28 | the ISO week date of any day of a calendar year lies in the year before, the same year or the year after, and places the day in its ISO week |
| Calendar.Week1MondayFacts | analytics/services/miner.py:26-28 | the Monday of ISO week 1 is a Monday within three days of 1 January |
| Calendar.DaysBeforeYearClosedForm | analytics/services/miner.py:44 | the year-by-year day count equals Python's `_days_before_year` formula |
| Text.DecimalRoundTrip | analytics/services/miner.py:29 | `str(year)` is digits with no leading zero that read back as the year |
| Text.Pad2 | analytics/services/miner.py:29 | `f"{n:02d}"` is two digits that read back as `n` |
| DateKeys.DateStr | analytics/services/miner.py:31-32 | `date_str` is ten characters: four, two and two digits reading back as year, month and day, separated by `-` |
| DateKeys.DateStrRoundTrip | analytics/services/miner.py:31-32 | `strptime(date_str(d), "%Y-%m-%d")` gives back `d` |
| DateKeys.ParseDate | analytics/services/miner.py:177 | the model reads back the fixed-width `YYYY-MM-DD` form that `date_str` writes; a string it accepts has ten characters |
| DateKeys.ParseDateRoundTrip | analytics/services/miner.py:177 | a string that `strptime` accepts is the `date_str` of its date |
| DateKeys.DayOrdinalInjective | analytics/services/miner.py:177 | different date keys are different days |
| Calendar.OrdinalInjective | analytics/services/miner.py:177 | different dates have different day numbers |
| Calendar.OrdinalMonotone | analytics/services/miner.py:177 | day numbers grow strictly with the date order that `sorted` uses |
| Calendar.OrdinalWithinYear | analytics/services/miner.py:177 | a date's day number lies within its year's span of day numbers |
| Calendar.NextDayOrdinal | analytics/services/miner.py:44 | `d + timedelta(days=1)` is the next calendar day, one day number later |
| Streaks.ComputeAverageStreak | analytics/services/miner.py:34-50 | the loop builds the lengths of the maximal runs of consecutive days and returns their mean: 0.0 with no days, otherwise between 1 and the number of days |
| Streaks.StreakLengthsFacts | analytics/services/miner.py:34-50 | the streaks partition the days: each is at least one day, they sum to the number of days, and there is one streak more than there are gaps |
| Streaks.StreakLengthsSnoc | analytics/services/miner.py:43-48 | one more day extends the last streak when it follows it, and starts a new streak of one otherwise |
| Streaks.StreakStep | analytics/services/miner.py:43-48 | one iteration of the loop keeps `streaks + [current_streak]` equal to the streaks of the days so far |
| Streaks.RunLengthSnoc | analytics/services/miner.py:44 | a run grows only when the appended day follows the whole run |
| Streaks.StreakExtends | analytics/services/miner.py:44-45 | a following day lengthens the last streak |
| Streaks.StreakStarts | analytics/services/miner.py:46-48 | a non-following day starts a streak of one |
| Streaks.BreaksCount | analytics/services/miner.py:43-49 | the number of streaks is one more than the number of gaps |
| Streaks.AverageBounds | analytics/services/miner.py:37-40 | the mean is 0.0 for no days and between 1 and the number of days otherwise |
| Streaks.StreakExample | analytics/services/miner.py:34-50 | three consecutive days and one a week later give streaks 3 and 1, mean 2.0 |
| AuthorAggregation.KeyOf | analytics/services/miner.py:110-112 | a present, non-empty author name or e-mail is the key's name or e-mail, and a missing or empty one is replaced by `"Unknown"` or `"unknown@example.com"`; neither part is ever empty |
| AuthorAggregation.KeysOfAgreeingDates | analytics/services/miner.py:132-135 | with library values agreeing with the calendar, commits share a week key exactly when in the same Monday-to-Sunday week and a weekday key exactly when a whole number of weeks apart |
| AuthorAggregation.ZeroWeekdays | analytics/services/miner.py:122-123 | the weekday counter starts with exactly the seven day names at zero |
| AuthorAggregation.Record | analytics/services/miner.py:131-160 | the record names the commit by its hash and carries the author key it was filed under, the ISO author date, its hour and the commit's own day name; the message is kept, or `""` when missing; the committer's name and e-mail are copied, both `None` without a committer; the committer date, `in_main_branch` and `is_merge` are copied; a missing insertion or deletion count reads as 0 and a present one is kept; `files_changed` counts the modified files |
| AuthorAggregation.NewBucket | analytics/services/miner.py:115-129 | a new author's bucket is named after the key and holds no commits and no dates, zero totals, counters that sum to zero, and exactly the seven day names in the weekday counter |
| AuthorAggregation.AddCommitFacts | analytics/services/miner.py:162-171 | filing a commit keeps the bucket's name, appends exactly one record, that of the commit, raises the sum of each of the three counters by one, makes the day name a weekday key and adds the commit's day to the dates |
| AuthorAggregation.WeekKeys | analytics/services/miner.py:134 | the `i`-th week key is the ISO-week bucket of the `i`-th commit |
| AuthorAggregation.WeekdayKeys | analytics/services/miner.py:133 | the `i`-th weekday key is the day name of the `i`-th commit |
| AuthorAggregation.DayKeys | analytics/services/miner.py:135 | the `i`-th day key is the `date_str` of the `i`-th commit |
| AuthorAggregation.Records | analytics/services/miner.py:138-162 | the `i`-th record of a bucket is the record of the author's `i`-th commit |
| AuthorAggregation.WeekdayKeysNamed | analytics/services/miner.py:133 | every weekday key is a day name |
| AuthorAggregation.DayKeysParse | analytics/services/miner.py:135 | every day key reads back as its commit's date |
| AuthorAggregation.BucketContents | analytics/services/miner.py:114-171 | a bucket holds its key's name and e-mail, one record per commit in order, the tallies of the week, weekday and day keys, the day keys as commit dates, and the sums of the counts |
| AuthorAggregation.BucketRecords | analytics/services/miner.py:116-119 | the bucket is named after its key and its records are the records of its commits |
| AuthorAggregation.BucketTallies | analytics/services/miner.py:165-167 | the three counters are the tallies of the commits' keys |
| AuthorAggregation.BucketWeekly | analytics/services/miner.py:165 | the weekly counter is the tally of the week keys |
| AuthorAggregation.BucketWeekday | analytics/services/miner.py:166 | the weekday counter is the tally of the weekday keys over the seven zeros |
| AuthorAggregation.BucketDaily | analytics/services/miner.py:167 | the daily counter is the tally of the day keys, and the commit dates are its keys |
| AuthorAggregation.BucketTotals | analytics/services/miner.py:168-170 | the totals are the sums of insertions, deletions (missing read as 0) and files changed |
| AuthorAggregation.BucketCounts | analytics/services/miner.py:162-171 | each counter sums to the number of commits, the weekday counter has exactly the seven names, a date is a commit date exactly when a commit falls on it, and every commit date parses |
| AuthorAggregation.WeekdayTally | analytics/services/miner.py:166 | the weekday tally keeps the seven names and sums to the number of commits |
| AuthorAggregation.DayTallySum | analytics/services/miner.py:167 | the daily tally sums to the number of commits |
| AuthorAggregation.DayTallyKeys | analytics/services/miner.py:167 | the daily tally's days are exactly the day keys, each counted |
| AuthorAggregation.DayKeysAllParse | analytics/services/miner.py:171 | every commit date reads back as a date |
| AuthorAggregation.TimeBounds | analytics/services/miner.py:104-108 | `Earliest` and `Latest`, the values the loop keeps in `earliest` and `latest`, are absent exactly for no commits; otherwise they are the author dates of the first commits with the least and the greatest instant, and the earliest is not after the latest |
| AuthorAggregation.AuthorDates | analytics/services/miner.py:104 | the `i`-th author date is the `i`-th commit's |
| AuthorAggregation.AggregateAuthors | analytics/services/miner.py:92-171 | the loop yields the authors in first-seen order, each bucket equal to filing that author's commits in order in a fresh bucket, and the earliest and latest author dates |
| Grouping.Select | analytics/services/miner.py:115-162 | an author's commits are a sub-list of the commits, all with that key |
| Grouping.SelectMembers | analytics/services/miner.py:115-162 | an author's commits are exactly the commits with that key, none occurring more often than in the log |
| Grouping.FirstSeenFacts | analytics/services/miner.py:115-116 | the dict's keys are distinct and are exactly the keys that occur |
| Grouping.AddToInTwoSteps | analytics/services/miner.py:115-171 | creating a missing bucket and then updating it is one dict update |
| Grouping.AddToGrouped | analytics/services/miner.py:115-171 | the loop body keeps every bucket equal to the fold of its author's commits |
| Grouping.GroupsPartition | analytics/services/miner.py:175-183 | the buckets together hold every commit exactly once |
| Grouping.CountUnderSnoc | analytics/services/miner.py:162 | one more commit adds one to the count of the group listing its key |
| Counting.Inc | analytics/services/miner.py:165-167 | `d[k] += 1` on a `defaultdict(int)`: the key joins, its count grows by one, other counts stay |
| Counting.IncSum | analytics/services/miner.py:165-167 | an increment raises the counter's sum by one |
| Counting.TallyFromCounts | analytics/services/miner.py:165-167 | the counter holds its starting keys and the counted ones, each at its start plus its number of occurrences |
| Counting.TallyFromSum | analytics/services/miner.py:165-167 | each counted key adds one to the counter's sum |
| Counting.Count | analytics/services/miner.py:165-167 | a key occurs at most as often as the list is long |
| Counting.CountAbsent | analytics/services/miner.py:165-167 | an absent key is counted zero times |
| Counting.MapSumZero | analytics/services/miner.py:122-124 | a fresh counter sums to zero |
| Counting.SumAtRemove | analytics/services/miner.py:165-167 | the sum over a set of keys is one key's count plus the sum over the others |
| Counting.SumAtAgree | analytics/services/miner.py:165-167 | the sum reads only the counted keys |
| Counting.SumAtZero | analytics/services/miner.py:122-124 | counts that are all zero sum to zero |
| Extremes.FirstMinIsLeast | analytics/services/miner.py:105-106 | `earliest` is absent only for no commits, and otherwise is the first value with the least instant |
| Extremes.FirstMaxIsGreatest | analytics/services/miner.py:107-108 | `latest` is absent only for no commits, and otherwise is the first value with the greatest instant |
| Extremes.MinAtMostMax | analytics/services/miner.py:104-108 | the earliest instant is not after the latest |
| Sorting.SortedDays | analytics/services/miner.py:177 | `sorted` of the set of days lists each day once, strictly increasing, and equals the reference listing |
| Sorting.AscendingFacts | analytics/services/miner.py:177 | the reference listing holds exactly the set's elements, once each, increasing |
| Sorting.SortedDaysAscending | analytics/services/miner.py:177 | any strictly increasing listing of the set is the reference listing |
| Sorting.SortedUnique | analytics/services/miner.py:177 | two listings increasing in the same strict order with the same elements are equal |
| Sorting.ConsIncreasing | analytics/services/miner.py:177 | a value below all of an increasing list can go in front of it |
| Sorting.Least | analytics/services/miner.py:177 | a non-empty set of days has a least element |
| Sorting.LeastKey | analytics/services/miner.py:187 | a non-empty set of keys has a least key in Python's string order |
| Sorting.SortedItems | analytics/services/miner.py:187-189 | `sorted(d.items())` lists each key once with its count, in increasing key order |
| Sorting.SortedItemsUnique | analytics/services/miner.py:187-189 | the sorted item list is determined by the counter |
| Text.StrLessIrreflexive | analytics/services/miner.py:187 | no string is less than itself |
| Text.StrLessTransitive | analytics/services/miner.py:187 | string order is transitive |
| Text.StrLessTotal | analytics/services/miner.py:187 | any two different strings are ordered |
| Miner.ActiveDaysCount | analytics/services/miner.py:177 | the commit dates give as many distinct days as there are dates |
| Miner.FinalizeAuthor | analytics/services/miner.py:175-192 | an author's report copies name, e-mail, totals, weekday counter and records, counts the records, sorts the week and day counters by key, and averages the streaks of the sorted distinct commit days (0.0 with none, otherwise from 1 to the number of days) |
| Miner.FinalizeAuthors | analytics/services/miner.py:173-194 | one report per author, in dict order, each the report of that author's bucket |
| Miner.IsoOf | analytics/services/miner.py:197-198 | a summary date is present exactly when there was an author date |
| Miner.CommitCountsUnder | analytics/services/miner.py:183 | the reports' commit counts add up to the commits filed under their keys |
| Miner.AuthorsReady | analytics/services/miner.py:173-177 | every author's bucket has one record per commit and at least one commit date, all of which `strptime` accepts |
| Miner.BucketReady | analytics/services/miner.py:177 | a bucket of a non-empty list of commits has commit dates, all accepted by `strptime` |
| Miner.ReportsOfAuthors | analytics/services/miner.py:174-192 | the finalised reports, in first-seen order, are the reports of the authors' buckets, each with an average streak of at least one day |
| Miner.MineRepository | analytics/services/miner.py:92-199 | one report per author in first-seen order, each the report of its bucket with an average streak of at least one day; the commit counts add up to the number of commits; the summary gives that number and the earliest and latest author dates |
| CiRequests.OwnerFromPath | analytics/services/github_ci.py:16-25 | the owner is found exactly when the stripped path holds a `/`, and is then the non-empty, slash-free text before the first one; otherwise a `ValueError` |
| CiRequests.OwnerOf | analytics/services/github_ci.py:16-25 | the path `/owner/rest` gives `owner` |
| CiRequests.StripLeadingSlash | analytics/services/github_ci.py:21 | stripping `/` from `/inner` gives `inner` when it has no outer slash |
| CiRequests.FirstPieceOf | analytics/services/github_ci.py:22-25 | `owner/rest` splits into at least two pieces, the first being `owner` |
| CiRequests.ResetSleep | analytics/services/github_ci.py:36-53 | it sleeps exactly when both headers parse, none remain and the reset is in the future, waking one second after the reset (at least 2 s); missing headers mean no sleep |
| CiRequests.Get | analytics/services/github_ci.py:56-77 | at most `max_retries` attempts, all before the last answered and retried (403 or 5xx); an exception of `requests.get` ends the call at once; a returned response passed `raise_for_status`; other errors raise at once; exhaustion raises on the last response; no attempts is `UnboundLocalError`; the sleeps are the backoffs or reset sleeps, then the post-success reset sleep |
| CiRuns.Timestamp | analytics/services/github_ci.py:126 | the timestamp is non-empty exactly when `updated_at` or `created_at` is, and is `updated_at` whenever that is non-empty |
| CiScan.CoveredBy | analytics/services/github_ci.py:116-123 | only target SHAs are ever covered |
| CiScan.CoveredByFacts | analytics/services/github_ci.py:116-123 | a SHA is covered exactly when it is a target and a run from this repository has it as head SHA |
| CiScan.CoveredByAppend | analytics/services/github_ci.py:113-123 | coverage of two lists of runs is the union of their coverages |
| CiScan.PageOldestFacts | analytics/services/github_ci.py:115-131 | `PageOldest`, the page's `oldest`, is unreadable exactly when a run from this repository has a timestamp that does not parse; otherwise it is the least of their instants, and missing only when none has a timestamp |
| CiScan.ScanPage | analytics/services/github_ci.py:115-129 | the run loop computes the page's oldest time and, unless a timestamp raised, adds the page's coverage |
| CiScan.FetchWorkflowRunsCovering | analytics/services/github_ci.py:83-145 | pages are requested from 1 and never past the cap; each earlier page was fetched, had only readable timestamps and did not stop the scan; a scan that returns ends on a fetched page whose timestamps all parsed, with every fetched run in page order and the covered targets, because the cap was reached or that page is empty, completes coverage or passes the cutoff; otherwise the last page's request or one of its timestamps raised; no targets means one page at most |
| CiSummary.Kept | analytics/services/github_ci.py:155-158 | the runs kept all have a non-empty head SHA |
| CiSummary.KeptMembers | analytics/services/github_ci.py:155-158 | a run is kept exactly when it has a non-empty head SHA |
| CiSummary.ConclusionKey | analytics/services/github_ci.py:178 | the conclusion key is empty for a missing conclusion, otherwise as long as the conclusion and free of upper-case ASCII letters |
| CiSummary.IsNewer | analytics/services/github_ci.py:183-186 | a run replaces the latest when there is none yet or the latest's `updated_at` is missing; never when that field is empty, or when the run has no timestamp while the latest has the field; when both are non-empty, exactly when the run's timestamp is greater as a string |
| CiSummary.AddRunFacts | analytics/services/github_ci.py:176-200 | one more run counts once more, keeps the seven tally keys, raises the tally's sum by at most one, changes no other conclusion's count, and leaves the latest run or replaces it by this run |
| CiSummary.SummaryCount | analytics/services/github_ci.py:160-175 | a summary has `has_actions_runs` set and counts every run of its SHA |
| CiSummary.ConclusionKeys | analytics/services/github_ci.py:178 | the `i`-th key is the lower-cased conclusion of the `i`-th run, one key per run |
| CiSummary.SummaryTally | analytics/services/github_ci.py:167-180 | the tally has exactly the seven conclusions, each counting the runs whose lower-cased conclusion it is, and sums to at most the run count |
| CiSummary.SummaryLatest | analytics/services/github_ci.py:181-200 | there is a latest run exactly when the SHA has runs, and it is a copy of one of them |
| CiSummary.LatestIsNewest | analytics/services/github_ci.py:181-200 | when every run has a non-empty `updated_at`, the latest run is the first run with the greatest one |
| CiSummary.TotalRunsUnder | analytics/services/github_ci.py:160-175 | the run counts of the listed SHAs add up to their runs |
| CiSummary.SummarizeRunsBySha | analytics/services/github_ci.py:148-202 | the SHAs in first-seen order among runs with a SHA, each mapped to the summary of its runs in order; the run counts add up to the number of such runs |
| Text.LowerAscii | analytics/services/github_ci.py:178 | `lower()` keeps the length and lowers each character |
| Text.DigitChar | analytics/services/miner.py:29 | a digit character reads back as its value |
| Text.Pad4 | analytics/services/miner.py:32 | `%Y` is four digits reading back as the year |

## Left out

- I/O is not modelled: cloning, the PyDriller traversal, `tqdm`, the `print`s, the JSON file and the `performanceData` global. The traversed commits are the input `log` of `MineRepository`.
- Miner.MineRepository: `total_commits` comes from a separate traversal (line 96). It is modelled as the number of commits of the traversal that fills the buckets, which assumes both traversals see the same commits.
- `urlparse` is not modelled: `RepoName` and `OwnerFromPath` take the path part of the URL.
- CiRequests.OwnerFromPath: the `ValueError` message is modelled without its `: {url}` suffix, because the function takes only the path.
- The values PyDriller and `datetime` report are inputs of each commit: the author date's instant, its `isoformat()` text, local date, hour, weekday and ISO week. `LibraryAgrees` states when they match the calendar model.
- Miner.FinalizeAuthor: requires every commit date to parse, as `strptime` would raise otherwise. `AuthorsReady` proves that every bucket the aggregation builds meets this.
- Streaks.ComputeAverageStreak: the average is the exact rational mean; the source's floating-point rounding is not modelled.
- `strptime` leniency (one-digit fields) is not modelled: only the fixed-width `YYYY-MM-DD` that `date_str` writes is read back. Years below 1000 are padded to four digits; some C libraries do not pad `%Y`.
- `weekday_frequency` is a map: the order of its keys in the JSON output is not modelled. The order of the report's `weekly_frequency` and `daily_frequency` is modelled, as sorted lists of items.
- Text.LowerAscii: `lower()` is modelled on ASCII letters only; other characters are kept unchanged.
- The network, the clock, `time.sleep`, `_headers()` and the `GITHUB_TOKEN` environment variable are not modelled. `Get` receives, from oracles indexed by attempt, whether `requests.get` raised, the response and the clock reading, and returns the list of sleeps. Which exception `requests.get` raised is not modelled.
- CiScan.FetchWorkflowRunsCovering: a page request is an oracle from page number to page, with `_get`'s exception folded into `Failed` and the `event`/`branch` filters into the oracle. `fromisoformat` is an oracle from text to instant. The `on_page` callback and the progress `print`s are not modelled.
- A run's JSON fields are modelled as optional values; a `head_repository` that is present without `full_name` counts as missing.

## Findings

None.
