/** The temporal keys of the commit miner (analytics/services/miner.py and
    its copy backend/miner.py): the weekday name of `strftime("%A")`, the ISO
    week bucket `"<isoYear>-W<ww>"` built from `isocalendar()` (ISO 8601 week
    date, section 4.1.4), and the calendar-date key `strftime("%Y-%m-%d")`
    (ISO 8601 extended calendar date, section 4.1.2) together with the
    `strptime("%Y-%m-%d")` that reads it back. */
module DateKeys {
  import opened Wrappers
  import opened Text
  import opened Calendar

  datatype Weekday = Monday | Tuesday | Wednesday | Thursday | Friday | Saturday | Sunday

  /** The seven keys `weekday_frequency` starts with. */
  const WeekdayNames: set<string> :=
    {"Monday", "Tuesday", "Wednesday", "Thursday", "Friday", "Saturday", "Sunday"}

  /** The day of the week of a date, from `date.weekday()`. */
  function WeekdayOf(d: Date): Weekday
  {
    WeekdayFromIndex(WeekdayIndex(d))
  }

  function WeekdayFromIndex(i: int): (w: Weekday)
    requires 0 <= i < 7
  {
    if i == 0 then Monday else if i == 1 then Tuesday else if i == 2 then Wednesday
    else if i == 3 then Thursday else if i == 4 then Friday else if i == 5 then Saturday
    else Sunday
  }

  /** `weekday_name`: the English day name of `strftime("%A")`. */
  function WeekdayName(w: Weekday): (r: string)
    ensures r in WeekdayNames
  {
    match w
    case Monday => "Monday"
    case Tuesday => "Tuesday"
    case Wednesday => "Wednesday"
    case Thursday => "Thursday"
    case Friday => "Friday"
    case Saturday => "Saturday"
    case Sunday => "Sunday"
  }

  /** Different weekdays have different names, and every name is used. */
  lemma WeekdayNamesExact()
    ensures forall a: Weekday, b: Weekday :: WeekdayName(a) == WeekdayName(b) ==> a == b
    ensures forall n :: n in WeekdayNames ==> exists w: Weekday :: WeekdayName(w) == n
  {
    assert WeekdayName(Monday) == "Monday" && WeekdayName(Tuesday) == "Tuesday";
    assert WeekdayName(Wednesday) == "Wednesday" && WeekdayName(Thursday) == "Thursday";
    assert WeekdayName(Friday) == "Friday" && WeekdayName(Saturday) == "Saturday";
    assert WeekdayName(Sunday) == "Sunday";
  }

  /** An ISO calendar year as `isocalendar()` reports it. */
  type IsoYear = y: int | 1 <= y <= 9999 witness 1970

  /** An ISO week number: 1 to 53. */
  type IsoWeek = w: int | 1 <= w <= 53 witness 1

  /** `iso_week_bucket`: the year in plain decimal, `-W`, and the week with
      two digits. */
  function IsoWeekBucket(year: IsoYear, week: IsoWeek): (r: string)
    ensures |r| >= 5
    ensures r[|r| - 4..|r| - 2] == "-W"
    ensures AllDigits(r[|r| - 2..]) && DigitsValue(r[|r| - 2..]) == week
    ensures AllDigits(r[..|r| - 4]) && DigitsValue(r[..|r| - 4]) == year
  {
    DecimalRoundTrip(year);
    var r := Decimal(year) + "-W" + Pad2(week);
    assert r[..|r| - 4] == Decimal(year) && r[|r| - 2..] == Pad2(week);
    r
  }

  /** `iso_week_bucket` of a datetime whose local calendar date is `d`. */
  function WeekBucketOf(d: Date): (r: string)
  {
    IsoCalendarFacts(d);
    var iso := IsoCalendar(d);
    IsoWeekBucket(iso.year, iso.week)
  }

  /** Reads a week bucket back into its ISO year and week. */
  function ParseIsoWeekBucket(s: string): Option<(int, int)>
  {
    if |s| >= 5 && s[|s| - 4..|s| - 2] == "-W" && AllDigits(s[..|s| - 4]) && AllDigits(s[|s| - 2..])
    then Some((DigitsValue(s[..|s| - 4]), DigitsValue(s[|s| - 2..])))
    else None
  }

  /** The week bucket determines the ISO week it was made from, so
      `weekly_frequency` counts each ISO week under its own key. */
  lemma IsoWeekBucketRoundTrip(year: IsoYear, week: IsoWeek)
    ensures ParseIsoWeekBucket(IsoWeekBucket(year, week)) == Some((year as int, week as int))
  {
  }

  lemma IsoWeekBucketInjective(y1: IsoYear, w1: IsoWeek, y2: IsoYear, w2: IsoWeek)
    requires IsoWeekBucket(y1, w1) == IsoWeekBucket(y2, w2)
    ensures y1 == y2 && w1 == w2
  {
    IsoWeekBucketRoundTrip(y1, w1);
    IsoWeekBucketRoundTrip(y2, w2);
  }

  /** Two commits land in the same `weekly_frequency` bucket exactly when
      their dates fall in the same Monday-to-Sunday week. */
  lemma WeekBucketSameWeek(a: Date, b: Date)
    ensures WeekBucketOf(a) == WeekBucketOf(b) <==> MondayOf(a) == MondayOf(b)
  {
    IsoCalendarFacts(a);
    IsoCalendarFacts(b);
    var ia, ib := IsoCalendar(a), IsoCalendar(b);
    SameIsoWeek(a, b);
    if WeekBucketOf(a) == WeekBucketOf(b) {
      IsoWeekBucketInjective(ia.year, ia.week, ib.year, ib.week);
    }
  }

  /** Two dates have the same weekday name exactly when their day numbers
      are a whole number of weeks apart. */
  lemma WeekdayNameCycle(a: Date, b: Date)
    ensures WeekdayName(WeekdayOf(a)) == WeekdayName(WeekdayOf(b)) <==> (Ordinal(a) - Ordinal(b)) % 7 == 0
  {
    var i, j := WeekdayIndex(a), WeekdayIndex(b);
    WeekdayNameInjective(WeekdayOf(a), WeekdayOf(b));
    SameResidue(Ordinal(a), Ordinal(b));
  }

  lemma WeekdayNameInjective(v: Weekday, w: Weekday)
    ensures WeekdayName(v) == WeekdayName(w) <==> v == w
  {
    if WeekdayName(v) == WeekdayName(w) {
      var n := WeekdayName(v);
      assert n[0] == WeekdayName(w)[0] && n[1] == WeekdayName(w)[1];
    }
  }

  lemma SameResidue(x: int, y: int)
    ensures (x + 6) % 7 == (y + 6) % 7 <==> (x - y) % 7 == 0
  {
    var p, q := (x + 6) / 7, (y + 6) / 7;
    var i, j := (x + 6) % 7, (y + 6) % 7;
    assert x - y == 7 * (p - q) + (i - j);
    if i == j {
      assert (x - y) % 7 == (7 * (p - q)) % 7;
    }
  }

  /** `date_str`: `YYYY-MM-DD`, each field zero padded to its width. */
  function DateStr(d: Date): (r: string)
    ensures |r| == 10 && r[4] == '-' && r[7] == '-'
    ensures AllDigits(r[..4]) && AllDigits(r[5..7]) && AllDigits(r[8..])
    ensures DigitsValue(r[..4]) == d.year && DigitsValue(r[5..7]) == d.month && DigitsValue(r[8..]) == d.day
  {
    var r := Pad4(d.year) + "-" + Pad2(d.month) + "-" + Pad2(d.day);
    assert r[..4] == Pad4(d.year) && r[5..7] == Pad2(d.month) && r[8..] == Pad2(d.day);
    r
  }

  /** `datetime.strptime(s, "%Y-%m-%d").date()` on the fixed-width form:
      `None` where Python raises `ValueError`. */
  function ParseDate(s: string): (r: Option<Date>)
    ensures r.Some? ==> |s| == 10
  {
    if |s| == 10 && s[4] == '-' && s[7] == '-' && AllDigits(s[..4]) && AllDigits(s[5..7]) && AllDigits(s[8..])
    then
      var d := CivilDate(DigitsValue(s[..4]), DigitsValue(s[5..7]), DigitsValue(s[8..]));
      if ValidDate(d) then Some(d) else None
    else None
  }

  /** Every date key parses back to its date. */
  lemma DateStrRoundTrip(d: Date)
    ensures ParseDate(DateStr(d)) == Some(d)
  {
  }

  /** Every string that parses is the date key of what it parses to, so two
      different keys never parse to the same date. */
  lemma ParseDateRoundTrip(s: string)
    requires ParseDate(s).Some?
    ensures DateStr(ParseDate(s).value) == s
  {
    var r := DateStr(ParseDate(s).value);
    DigitsValueInjective(r[..4], s[..4]);
    DigitsValueInjective(r[5..7], s[5..7]);
    DigitsValueInjective(r[8..], s[8..]);
    assert r == r[..4] + [r[4]] + r[5..7] + [r[7]] + r[8..];
    assert s == s[..4] + [s[4]] + s[5..7] + [s[7]] + s[8..];
  }

  /** The day number a date key stands for. */
  function DayOrdinal(key: string): (n: int)
    requires ParseDate(key).Some?
  {
    Ordinal(ParseDate(key).value)
  }

  /** Different date keys stand for different days. */
  lemma DayOrdinalInjective(k1: string, k2: string)
    requires ParseDate(k1).Some? && ParseDate(k2).Some?
    requires DayOrdinal(k1) == DayOrdinal(k2)
    ensures k1 == k2
  {
    OrdinalInjective(ParseDate(k1).value, ParseDate(k2).value);
    ParseDateRoundTrip(k1);
    ParseDateRoundTrip(k2);
  }
}
