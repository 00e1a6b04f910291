/** The author aggregation of the commit miner (`main()` in
    analytics/services/miner.py, and its copy backend/miner.py): one pass
    over the commits that keys each commit by its author's name and e-mail
    (with defaults), keeps one bucket per author in first-seen order, and
    tracks the earliest and latest author dates. */
module AuthorAggregation {
  import opened Wrappers
  import opened Calendar
  import opened DateKeys
  import opened Counting
  import opened Extremes
  import opened Grouping

  type Hour = h: int | 0 <= h < 24

  /** `commit.author_date`, a timezone-aware datetime: the instant it denotes
      (what `<` and `>` compare), its `isoformat()` text, the calendar date
      and hour in its own offset, and what the datetime library reports for
      that date: `weekday()` and the year and week of `isocalendar()`. */
  datatype AuthorDate = AuthorDate(
    instant: int, iso: string, date: Date, hour: Hour,
    weekday: Weekday, isoYear: IsoYear, isoWeek: IsoWeek)

  /** The library's weekday and ISO week are those of the date, as the
      calendar model computes them. */
  predicate LibraryAgrees(ad: AuthorDate) {
    ad.weekday == WeekdayOf(ad.date) &&
    ad.isoYear as int == IsoCalendar(ad.date).year && ad.isoWeek as int == IsoCalendar(ad.date).week
  }

  /** A git identity as the commit reports it; either part may be missing. */
  datatype Identity = Identity(name: Option<string>, email: Option<string>)

  /** The fields of a commit that the miner reads. */
  datatype Commit = Commit(
    hash: string,
    msg: Option<string>,
    author: Option<Identity>,
    committer: Option<Identity>,
    authorDate: AuthorDate,
    committerDate: Option<string>,
    inMainBranch: bool,
    merge: bool,
    insertions: Option<nat>,
    deletions: Option<nat>,
    modifiedFiles: nat)

  /** The `(name, email)` key of `authors`. */
  datatype AuthorKey = AuthorKey(name: string, email: string)

  /** The per-commit record appended to an author's `commits`. */
  datatype CommitRecord = CommitRecord(
    hash: string,
    msg: string,
    authorName: string,
    authorEmail: string,
    committerName: Option<string>,
    committerEmail: Option<string>,
    authorDate: string,
    committerDate: Option<string>,
    inMainBranch: bool,
    isMerge: bool,
    insertions: nat,
    deletions: nat,
    filesChanged: nat,
    authorHour: Hour,
    authorWeekday: string)

  /** An author's bucket while the commits are traversed. */
  datatype Bucket = Bucket(
    name: string,
    email: string,
    commits: seq<CommitRecord>,
    weekly: map<string, nat>,
    weekday: map<string, nat>,
    daily: map<string, nat>,
    totalInsertions: nat,
    totalDeletions: nat,
    totalFilesChanged: nat,
    commitDates: set<string>)

  const UnknownName := "Unknown"
  const UnknownEmail := "unknown@example.com"

  /** `x or 0` for an optional count. */
  function OrZero(n: Option<nat>): nat {
    if n.Some? then n.value else 0
  }

  /** The author key of a commit: the author's name and e-mail where they are
      present and non-empty, `"Unknown"` and `"unknown@example.com"` otherwise. */
  function KeyOf(c: Commit): (k: AuthorKey)
    ensures k.name != "" && k.email != ""
    ensures c.author.Some? && Truthy(c.author.value.name) ==> k.name == c.author.value.name.value
    ensures !(c.author.Some? && Truthy(c.author.value.name)) ==> k.name == UnknownName
    ensures c.author.Some? && Truthy(c.author.value.email) ==> k.email == c.author.value.email.value
    ensures !(c.author.Some? && Truthy(c.author.value.email)) ==> k.email == UnknownEmail
  {
    var name := if c.author.Some? && Truthy(c.author.value.name) then c.author.value.name.value else UnknownName;
    var email := if c.author.Some? && Truthy(c.author.value.email) then c.author.value.email.value else UnknownEmail;
    AuthorKey(name, email)
  }

  /** The temporal keys of a commit, from its author date. */
  function WeekdayKey(c: Commit): string {
    WeekdayName(c.authorDate.weekday)
  }

  function WeekKey(c: Commit): string {
    IsoWeekBucket(c.authorDate.isoYear, c.authorDate.isoWeek)
  }

  function DayKey(c: Commit): string {
    DateStr(c.authorDate.date)
  }

  /** When the library's values are those of the date, the week and weekday
      keys are the calendar model's `iso_week_bucket` and `weekday_name` of
      the date, so two such commits share a week key exactly when they fall
      in the same Monday-to-Sunday week, and a weekday key exactly when their
      days are a whole number of weeks apart. */
  lemma KeysOfAgreeingDates(c: Commit, c': Commit)
    requires LibraryAgrees(c.authorDate) && LibraryAgrees(c'.authorDate)
    ensures WeekKey(c) == WeekBucketOf(c.authorDate.date)
    ensures WeekdayKey(c) == WeekdayName(WeekdayOf(c.authorDate.date))
    ensures WeekKey(c) == WeekKey(c') <==> MondayOf(c.authorDate.date) == MondayOf(c'.authorDate.date)
    ensures WeekdayKey(c) == WeekdayKey(c') <==> (Ordinal(c.authorDate.date) - Ordinal(c'.authorDate.date)) % 7 == 0
  {
    var d, d' := c.authorDate.date, c'.authorDate.date;
    WeekBucketSameWeek(d, d');
    WeekdayNameCycle(d, d');
  }

  /** The record of one commit, under the author key it was filed by: it
      names the commit by its hash, carries the key rather than the raw
      author, reads a missing message or count as empty or zero, and gives
      the weekday as a day name. */
  function Record(c: Commit, k: AuthorKey): (r: CommitRecord)
    ensures r.hash == c.hash && r.authorName == k.name && r.authorEmail == k.email
    ensures r.authorDate == c.authorDate.iso && r.authorHour == c.authorDate.hour
    ensures r.authorWeekday == WeekdayKey(c) && r.authorWeekday in WeekdayNames
    ensures c.msg.None? ==> r.msg == ""
    ensures c.msg.Some? ==> r.msg == c.msg.value
    ensures c.committer.None? ==> r.committerName.None? && r.committerEmail.None?
    ensures c.committer.Some? ==> r.committerName == c.committer.value.name && r.committerEmail == c.committer.value.email
    ensures r.committerDate == c.committerDate && r.inMainBranch == c.inMainBranch && r.isMerge == c.merge
    ensures c.insertions.None? ==> r.insertions == 0
    ensures c.deletions.None? ==> r.deletions == 0
    ensures c.insertions.Some? ==> r.insertions == c.insertions.value
    ensures c.deletions.Some? ==> r.deletions == c.deletions.value
    ensures r.filesChanged == c.modifiedFiles
  {
    CommitRecord(
      c.hash,
      if c.msg.Some? then c.msg.value else "",
      k.name,
      k.email,
      if c.committer.Some? then c.committer.value.name else None,
      if c.committer.Some? then c.committer.value.email else None,
      c.authorDate.iso,
      c.committerDate,
      c.inMainBranch,
      c.merge,
      OrZero(c.insertions),
      OrZero(c.deletions),
      c.modifiedFiles,
      c.authorDate.hour,
      WeekdayKey(c))
  }

  /** The `Counter` of weekdays, every day name at zero. */
  function ZeroWeekdays(): (m: map<string, nat>)
    ensures m.Keys == WeekdayNames
    ensures forall n :: n in m ==> m[n] == 0
  {
    map n | n in WeekdayNames :: 0
  }

  /** A fresh bucket for an author seen for the first time: named after the
      key, with no commits, no dates, zero totals, counters that sum to zero
      and the seven day names in the weekday counter. */
  function NewBucket(k: AuthorKey): (b: Bucket)
    ensures b.name == k.name && b.email == k.email
    ensures b.commits == [] && b.commitDates == {}
    ensures b.totalInsertions == 0 && b.totalDeletions == 0 && b.totalFilesChanged == 0
    ensures b.weekday.Keys == WeekdayNames && MapSum(b.weekday) == 0
    ensures MapSum(b.weekly) == 0 && MapSum(b.daily) == 0
  {
    MapSumZero(ZeroWeekdays());
    MapSumZero<string>(map[]);
    Bucket(k.name, k.email, [], map[], ZeroWeekdays(), map[], 0, 0, 0, {})
  }

  /** Filing one commit in the bucket of author `k`: the record is
      appended, the three frequency maps are incremented at the commit's keys,
      the totals grow and the day key joins the set of commit dates. */
  function AddCommit(k: AuthorKey, b: Bucket, c: Commit): Bucket {
    b.(commits := b.commits + [Record(c, k)],
       weekly := Inc(b.weekly, WeekKey(c)),
       weekday := Inc(b.weekday, WeekdayKey(c)),
       daily := Inc(b.daily, DayKey(c)),
       totalInsertions := b.totalInsertions + OrZero(c.insertions),
       totalDeletions := b.totalDeletions + OrZero(c.deletions),
       totalFilesChanged := b.totalFilesChanged + c.modifiedFiles,
       commitDates := b.commitDates + {DayKey(c)})
  }

  /** Filing a commit keeps the bucket's name, appends one record for the
      commit, raises the sum of each counter by one, makes the commit's day
      name a key of the weekday counter and its day a commit date. */
  lemma AddCommitFacts(k: AuthorKey, b: Bucket, c: Commit)
    ensures var b' := AddCommit(k, b, c);
      b'.name == b.name && b'.email == b.email &&
      |b'.commits| == |b.commits| + 1 && b'.commits[|b.commits|] == Record(c, k) &&
      MapSum(b'.weekly) == MapSum(b.weekly) + 1 &&
      MapSum(b'.weekday) == MapSum(b.weekday) + 1 && b'.weekday.Keys == b.weekday.Keys + {WeekdayKey(c)} &&
      MapSum(b'.daily) == MapSum(b.daily) + 1 &&
      b'.commitDates == b.commitDates + {DayKey(c)}
  {
    IncSum(b.weekly, WeekKey(c));
    IncSum(b.weekday, WeekdayKey(c));
    IncSum(b.daily, DayKey(c));
  }

  /** The keys of the commits, one per commit. */
  function WeekKeys(cs: seq<Commit>): (r: seq<string>)
    ensures |r| == |cs|
    ensures forall i :: 0 <= i < |cs| ==> r[i] == WeekKey(cs[i])
  {
    if |cs| == 0 then [] else WeekKeys(cs[..|cs| - 1]) + [WeekKey(cs[|cs| - 1])]
  }

  function WeekdayKeys(cs: seq<Commit>): (r: seq<string>)
    ensures |r| == |cs|
    ensures forall i :: 0 <= i < |cs| ==> r[i] == WeekdayKey(cs[i])
  {
    if |cs| == 0 then [] else WeekdayKeys(cs[..|cs| - 1]) + [WeekdayKey(cs[|cs| - 1])]
  }

  function DayKeys(cs: seq<Commit>): (r: seq<string>)
    ensures |r| == |cs|
    ensures forall i :: 0 <= i < |cs| ==> r[i] == DayKey(cs[i])
  {
    if |cs| == 0 then [] else DayKeys(cs[..|cs| - 1]) + [DayKey(cs[|cs| - 1])]
  }

  /** Every weekday key is one of the seven day names. */
  lemma {:induction false} WeekdayKeysNamed(cs: seq<Commit>)
    ensures forall n :: n in WeekdayKeys(cs) ==> n in WeekdayNames
  {
    if |cs| > 0 {
      var p := cs[..|cs| - 1];
      WeekdayKeysNamed(p);
      assert WeekdayKeys(cs) == WeekdayKeys(p) + [WeekdayKey(cs[|cs| - 1])];
    }
  }

  /** Every day key reads back as the date of its commit. */
  lemma {:induction false} DayKeysParse(cs: seq<Commit>)
    ensures forall i :: 0 <= i < |cs| ==> ParseDate(DayKeys(cs)[i]) == Some(cs[i].authorDate.date)
  {
    if |cs| > 0 {
      var p := cs[..|cs| - 1];
      DayKeysParse(p);
      DateStrRoundTrip(cs[|cs| - 1].authorDate.date);
    }
  }

  /** The sums of the per-commit counts of a list of commits, a missing
      count read as 0. */
  function Insertions(cs: seq<Commit>): nat {
    if |cs| == 0 then 0 else Insertions(cs[..|cs| - 1]) + OrZero(cs[|cs| - 1].insertions)
  }

  function Deletions(cs: seq<Commit>): nat {
    if |cs| == 0 then 0 else Deletions(cs[..|cs| - 1]) + OrZero(cs[|cs| - 1].deletions)
  }

  function FilesChanged(cs: seq<Commit>): nat {
    if |cs| == 0 then 0 else FilesChanged(cs[..|cs| - 1]) + cs[|cs| - 1].modifiedFiles
  }

  /** The records of the commits `cs`, filed under `k`, in order. */
  function Records(k: AuthorKey, cs: seq<Commit>): (rs: seq<CommitRecord>)
    ensures |rs| == |cs|
    ensures forall i :: 0 <= i < |cs| ==> rs[i] == Record(cs[i], k)
  {
    if |cs| == 0 then [] else Records(k, cs[..|cs| - 1]) + [Record(cs[|cs| - 1], k)]
  }

  /** The bucket of author `k` once the commits `cs` are filed in it, in
      order, starting from a fresh bucket. */
  function BucketOf(k: AuthorKey, cs: seq<Commit>): Bucket {
    FoldFor(NewBucket, AddCommit, k, cs)
  }

  /** What a bucket holds: it is named after its key, holds one record per
      commit in order, its frequency maps are the tallies of the commits'
      week, weekday and day keys (the weekday tally starting from all seven
      days at zero), its commit dates are the days of the daily tally, and
      its totals are the sums of the commits' counts. */
  lemma BucketContents(k: AuthorKey, cs: seq<Commit>)
    ensures var b := BucketOf(k, cs);
      b.name == k.name && b.email == k.email && b.commits == Records(k, cs) &&
      b.weekly == TallyFrom(map[], WeekKeys(cs)) &&
      b.weekday == TallyFrom(ZeroWeekdays(), WeekdayKeys(cs)) &&
      b.daily == TallyFrom(map[], DayKeys(cs)) && b.commitDates == b.daily.Keys &&
      b.totalInsertions == Insertions(cs) && b.totalDeletions == Deletions(cs) &&
      b.totalFilesChanged == FilesChanged(cs)
  {
    BucketRecords(k, cs);
    BucketTallies(k, cs);
    BucketTotals(k, cs);
  }

  /** One step of the fold, field by field. */
  lemma BucketStep(k: AuthorKey, cs: seq<Commit>)
    requires |cs| > 0
    ensures BucketOf(k, cs) == AddCommit(k, BucketOf(k, cs[..|cs| - 1]), cs[|cs| - 1])
  {
  }

  lemma {:induction false} BucketRecords(k: AuthorKey, cs: seq<Commit>)
    ensures var b := BucketOf(k, cs);
      b.name == k.name && b.email == k.email && b.commits == Records(k, cs)
  {
    if |cs| > 0 {
      BucketRecords(k, cs[..|cs| - 1]);
      BucketStep(k, cs);
    }
  }

  lemma BucketTallies(k: AuthorKey, cs: seq<Commit>)
    ensures var b := BucketOf(k, cs);
      b.weekly == TallyFrom(map[], WeekKeys(cs)) &&
      b.weekday == TallyFrom(ZeroWeekdays(), WeekdayKeys(cs)) &&
      b.daily == TallyFrom(map[], DayKeys(cs)) && b.commitDates == b.daily.Keys
  {
    BucketWeekly(k, cs);
    BucketWeekday(k, cs);
    BucketDaily(k, cs);
  }

  lemma {:induction false} BucketWeekly(k: AuthorKey, cs: seq<Commit>)
    ensures BucketOf(k, cs).weekly == TallyFrom(map[], WeekKeys(cs))
  {
    if |cs| > 0 {
      var p, c := cs[..|cs| - 1], cs[|cs| - 1];
      BucketWeekly(k, p);
      BucketStep(k, cs);
      TallyFromSnoc(map[], WeekKeys(p), WeekKey(c));
    }
  }

  lemma {:induction false} BucketWeekday(k: AuthorKey, cs: seq<Commit>)
    ensures BucketOf(k, cs).weekday == TallyFrom(ZeroWeekdays(), WeekdayKeys(cs))
  {
    if |cs| > 0 {
      var p, c := cs[..|cs| - 1], cs[|cs| - 1];
      BucketWeekday(k, p);
      BucketStep(k, cs);
      TallyFromSnoc(ZeroWeekdays(), WeekdayKeys(p), WeekdayKey(c));
    }
  }

  lemma {:induction false} BucketDaily(k: AuthorKey, cs: seq<Commit>)
    ensures BucketOf(k, cs).daily == TallyFrom(map[], DayKeys(cs))
    ensures BucketOf(k, cs).commitDates == BucketOf(k, cs).daily.Keys
  {
    if |cs| > 0 {
      var p, c := cs[..|cs| - 1], cs[|cs| - 1];
      BucketDaily(k, p);
      BucketStep(k, cs);
      TallyFromSnoc(map[], DayKeys(p), DayKey(c));
    }
  }

  lemma {:induction false} BucketTotals(k: AuthorKey, cs: seq<Commit>)
    ensures var b := BucketOf(k, cs);
      b.totalInsertions == Insertions(cs) && b.totalDeletions == Deletions(cs) &&
      b.totalFilesChanged == FilesChanged(cs)
  {
    if |cs| > 0 {
      BucketTotals(k, cs[..|cs| - 1]);
      BucketStep(k, cs);
    }
  }

  /** The consequences the report relies on: every frequency map sums to the
      number of commits, the weekday map has exactly the seven day names, a
      day is a commit date exactly when a commit falls on it, and every commit
      date reads back as a date. */
  lemma BucketCounts(k: AuthorKey, cs: seq<Commit>)
    ensures var b := BucketOf(k, cs);
      MapSum(b.weekly) == |cs| && MapSum(b.weekday) == |cs| && MapSum(b.daily) == |cs| &&
      b.weekday.Keys == WeekdayNames &&
      (forall d :: d in b.commitDates <==> d in DayKeys(cs)) &&
      (forall d :: d in b.daily ==> b.daily[d] == Count(DayKeys(cs), d)) &&
      (forall d :: d in b.commitDates ==> ParseDate(d).Some?)
  {
    BucketTallies(k, cs);
    var none: map<string, nat> := map[];
    MapSumZero(none);
    TallyFromSum(none, WeekKeys(cs));
    WeekdayKeysNamed(cs);
    WeekdayTally(WeekdayKeys(cs));
    DayTallySum(cs);
    DayTallyKeys(cs);
    DayKeysAllParse(cs);
  }

  /** The weekday `Counter` keeps exactly the seven day names and sums to the
      number of commits. */
  lemma WeekdayTally(xs: seq<string>)
    requires forall n :: n in xs ==> n in WeekdayNames
    ensures TallyFrom(ZeroWeekdays(), xs).Keys == WeekdayNames
    ensures MapSum(TallyFrom(ZeroWeekdays(), xs)) == |xs|
  {
    var z := ZeroWeekdays();
    MapSumZero(z);
    TallyFromSum(z, xs);
    TallyFromCounts(z, xs);
  }

  /** The daily tally sums to the number of commits. */
  lemma DayTallySum(cs: seq<Commit>)
    ensures MapSum(TallyFrom(map[], DayKeys(cs))) == |cs|
  {
    var none: map<string, nat> := map[];
    MapSumZero(none);
    TallyFromSum(none, DayKeys(cs));
  }

  /** The daily tally counts each day key, and its days are exactly the day
      keys of the commits. */
  lemma DayTallyKeys(cs: seq<Commit>)
    ensures var xs, t := DayKeys(cs), TallyFrom(map[], DayKeys(cs));
      (forall d :: d in t <==> d in xs) &&
      (forall d :: d in t ==> t[d] == Count(xs, d))
  {
    var none: map<string, nat> := map[];
    TallyFromCounts(none, DayKeys(cs));
  }

  /** Every day key reads back as a date. */
  lemma DayKeysAllParse(cs: seq<Commit>)
    ensures forall d :: d in DayKeys(cs) ==> ParseDate(d).Some?
  {
    var xs := DayKeys(cs);
    DayKeysParse(cs);
    forall d | d in xs
      ensures ParseDate(d).Some?
    {
      var i :| 0 <= i < |xs| && xs[i] == d;
    }
  }

  /** The author dates of the commits, in order. */
  function AuthorDates(log: seq<Commit>): (ads: seq<AuthorDate>)
    ensures |ads| == |log|
    ensures forall i :: 0 <= i < |log| ==> ads[i] == log[i].authorDate
  {
    if |log| == 0 then [] else AuthorDates(log[..|log| - 1]) + [log[|log| - 1].authorDate]
  }

  function InstantOf(ad: AuthorDate): int {
    ad.instant
  }

  /** `earliest` and `latest` as the loop keeps them. */
  function Earliest(log: seq<Commit>): Option<AuthorDate> {
    FirstMin(AuthorDates(log), InstantOf)
  }

  function Latest(log: seq<Commit>): Option<AuthorDate> {
    FirstMax(AuthorDates(log), InstantOf)
  }

  lemma AuthorDatesSnoc(log: seq<Commit>, c: Commit)
    ensures AuthorDates(log + [c]) == AuthorDates(log) + [c.authorDate]
  {
    assert (log + [c])[..|log|] == log;
  }

  /** The earliest and latest dates are absent exactly for an empty log;
      otherwise the earliest is the author date of the first commit with the
      least instant, the latest that of the first commit with the greatest
      instant, and the earliest is not after the latest. */
  lemma TimeBounds(log: seq<Commit>)
    ensures Earliest(log).None? <==> |log| == 0
    ensures Latest(log).None? <==> |log| == 0
    ensures |log| > 0 ==> exists i :: (0 <= i < |log| && Earliest(log) == Some(log[i].authorDate) &&
      (forall j :: 0 <= j < |log| ==> log[i].authorDate.instant <= log[j].authorDate.instant) &&
      (forall j :: 0 <= j < i ==> log[j].authorDate.instant > log[i].authorDate.instant))
    ensures |log| > 0 ==> exists i :: (0 <= i < |log| && Latest(log) == Some(log[i].authorDate) &&
      (forall j :: 0 <= j < |log| ==> log[i].authorDate.instant >= log[j].authorDate.instant) &&
      (forall j :: 0 <= j < i ==> log[j].authorDate.instant < log[i].authorDate.instant))
    ensures |log| > 0 ==> Earliest(log).value.instant <= Latest(log).value.instant
  {
    var ads := AuthorDates(log);
    var i := FirstMinIsLeast(ads, InstantOf);
    var j := FirstMaxIsGreatest(ads, InstantOf);
    if |log| > 0 {
      MinAtMostMax(ads, InstantOf);
    }
  }

  /** The aggregation loop (lines 101-171): for each commit, update the time
      bounds, find or create the author's bucket and file the commit in it.
      The buckets come out in first-seen order, each equal to filing that
      author's commits, in order, in a fresh bucket. */
  method AggregateAuthors(log: seq<Commit>)
    returns (order: seq<AuthorKey>, authors: map<AuthorKey, Bucket>, earliest: Option<AuthorDate>, latest: Option<AuthorDate>)
    ensures order == FirstSeen(log, KeyOf)
    ensures forall k :: k in authors <==> k in order
    ensures forall k :: k in authors ==> authors[k] == BucketOf(k, Select(log, KeyOf, k))
    ensures earliest == Earliest(log) && latest == Latest(log)
  {
    order, authors, earliest, latest := [], map[], None, None;
    for i := 0 to |log|
      invariant order == FirstSeen(log[..i], KeyOf)
      invariant Grouped(log[..i], KeyOf, NewBucket, AddCommit, authors)
      invariant earliest == Earliest(log[..i]) && latest == Latest(log[..i])
    {
      var c := log[i];
      PrefixSnoc(log, i);
      AuthorDatesSnoc(log[..i], c);
      AddToGrouped(log[..i], c, KeyOf, NewBucket, AddCommit, authors);
      ghost var before := authors;
      var ad := c.authorDate;
      if earliest.None? || ad.instant < earliest.value.instant {
        earliest := Some(ad);
      }
      if latest.None? || ad.instant > latest.value.instant {
        latest := Some(ad);
      }
      var key := KeyOf(c);
      if key !in authors {
        authors := authors[key := NewBucket(key)];
        order := order + [key];
      }
      AddToInTwoSteps(before, KeyOf, NewBucket, AddCommit, c);
      authors := authors[key := AddCommit(key, authors[key], c)];
    }
    PrefixAll(log);
  }
}
