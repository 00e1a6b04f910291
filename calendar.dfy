/** The proleptic Gregorian calendar of Python's `datetime.date`: valid
    dates in years 1 to 9999, the day number `date.toordinal()` (1 for
    0001-01-01), and the next calendar day, which is what `d + timedelta(days=1)`
    denotes. */
module Calendar {

  predicate IsLeap(y: int) {
    y % 4 == 0 && (y % 100 != 0 || y % 400 == 0)
  }

  function DaysInMonth(y: int, m: int): (n: int)
    requires 1 <= m <= 12
    ensures 28 <= n <= 31
  {
    if m == 2 then (if IsLeap(y) then 29 else 28)
    else if m == 4 || m == 6 || m == 9 || m == 11 then 30
    else 31
  }

  function DaysInYear(y: int): int {
    if IsLeap(y) then 366 else 365
  }

  datatype CivilDate = CivilDate(year: int, month: int, day: int)

  predicate ValidDate(d: CivilDate) {
    1 <= d.year <= 9999 && 1 <= d.month <= 12 && 1 <= d.day <= DaysInMonth(d.year, d.month)
  }

  /** A value of Python's `datetime.date`. */
  type Date = d: CivilDate | ValidDate(d) witness CivilDate(1970, 1, 1)

  /** Days in the years before year `y`, counted from 0001-01-01 (and
      backwards from it for `y < 1`); `DaysBeforeYearClosedForm` proves it
      equal to Python's `_days_before_year`. */
  function DaysBeforeYear(y: int): int
    decreases if y >= 1 then y - 1 else 1 - y
  {
    if y == 1 then 0
    else if y > 1 then DaysBeforeYear(y - 1) + DaysInYear(y - 1)
    else DaysBeforeYear(y + 1) - DaysInYear(y)
  }

  /** Python's `_days_before_year`: `p * 365 + p // 4 - p // 100 + p // 400`
      with `p = y - 1` (floor division, which is Dafny's for a positive divisor). */
  function PyDaysBeforeYear(y: int): int
  {
    var p := y - 1;
    p * 365 + p / 4 - p / 100 + p / 400
  }

  /** Days in the months of year `y` before month `m`. */
  function DaysBeforeMonth(y: int, m: int): int
    requires 1 <= m <= 12
  {
    [0, 31, 59, 90, 120, 151, 181, 212, 243, 273, 304, 334][m - 1] + (if m > 2 && IsLeap(y) then 1 else 0)
  }

  /** Python's `date.toordinal()`. */
  function Ordinal(d: Date): (n: int)
    ensures n >= 1
  {
    DaysBeforeYearMonotone(1, d.year);
    DaysBeforeYear(d.year) + DaysBeforeMonth(d.year, d.month) + d.day
  }

  /** The calendar day after `d`. */
  function NextDay(d: Date): CivilDate {
    if d.day < DaysInMonth(d.year, d.month) then CivilDate(d.year, d.month, d.day + 1)
    else if d.month < 12 then CivilDate(d.year, d.month + 1, 1)
    else CivilDate(d.year + 1, 1, 1)
  }

  /** Python's `a < b` on dates: by year, then month, then day. */
  predicate Before(a: Date, b: Date) {
    a.year < b.year ||
    (a.year == b.year && a.month < b.month) ||
    (a.year == b.year && a.month == b.month && a.day < b.day)
  }

  lemma DivSteps(n: int)
    ensures n / 4 - (n - 1) / 4 == (if n % 4 == 0 then 1 else 0)
    ensures n / 100 - (n - 1) / 100 == (if n % 100 == 0 then 1 else 0)
    ensures n / 400 - (n - 1) / 400 == (if n % 400 == 0 then 1 else 0)
  {
  }

  lemma Divisibility(y: int)
    ensures y % 400 == 0 ==> y % 100 == 0
    ensures y % 100 == 0 ==> y % 4 == 0
  {
    if y % 400 == 0 {
      var q := y / 400;
      assert y == 100 * (4 * q);
    }
    if y % 100 == 0 {
      var q := y / 100;
      assert y == 4 * (25 * q);
    }
  }

  lemma DaysBeforeNextYear(y: int)
    ensures DaysBeforeYear(y + 1) == DaysBeforeYear(y) + DaysInYear(y)
  {
  }

  /** Python's closed form grows by the length of each year. */
  lemma PyDaysBeforeNextYear(y: int)
    ensures PyDaysBeforeYear(y + 1) == PyDaysBeforeYear(y) + DaysInYear(y)
  {
    DivSteps(y);
    Divisibility(y);
    var p := y - 1;
    assert PyDaysBeforeYear(y + 1) == y * 365 + y / 4 - y / 100 + y / 400;
    assert PyDaysBeforeYear(y) == p * 365 + p / 4 - p / 100 + p / 400;
  }

  /** The year-by-year count is Python's closed form, for every year. */
  lemma {:induction false} DaysBeforeYearClosedForm(y: int)
    ensures DaysBeforeYear(y) == PyDaysBeforeYear(y)
    decreases if y >= 1 then y - 1 else 1 - y
  {
    if y > 1 {
      DaysBeforeYearClosedForm(y - 1);
      PyDaysBeforeNextYear(y - 1);
    } else if y < 1 {
      DaysBeforeYearClosedForm(y + 1);
      PyDaysBeforeNextYear(y);
    }
  }

  lemma {:induction false} DaysBeforeYearMonotone(a: int, b: int)
    requires a <= b
    ensures DaysBeforeYear(a) + DaysInYear(a) <= DaysBeforeYear(b) || a == b
    decreases b - a
  {
    if a < b {
      DaysBeforeNextYear(a);
      if a + 1 < b {
        DaysBeforeYearMonotone(a + 1, b);
      }
    }
  }

  lemma DaysBeforeNextMonth(y: int, m: int)
    requires 1 <= m < 12
    ensures DaysBeforeMonth(y, m + 1) == DaysBeforeMonth(y, m) + DaysInMonth(y, m)
  {
  }

  /** The last day of a year is day `DaysInYear` of that year. */
  lemma DaysBeforeDecember(y: int)
    ensures DaysBeforeMonth(y, 12) + DaysInMonth(y, 12) == DaysInYear(y)
  {
  }

  /** The day number grows strictly with the calendar order, so it is
      one-to-one on dates and sorting dates is sorting their day numbers. */
  lemma OrdinalMonotone(a: Date, b: Date)
    requires Before(a, b)
    ensures Ordinal(a) < Ordinal(b)
  {
    if a.year < b.year {
      DaysBeforeDecember(a.year);
      assert DaysBeforeMonth(a.year, a.month) + a.day <= DaysInYear(a.year) by {
        var m := a.month;
        while m < 12
          invariant a.month <= m <= 12
          invariant DaysBeforeMonth(a.year, a.month) + a.day <= DaysBeforeMonth(a.year, m) + DaysInMonth(a.year, m)
        {
          DaysBeforeNextMonth(a.year, m);
          m := m + 1;
        }
      }
      DaysBeforeYearMonotone(a.year, b.year);
    } else if a.month < b.month {
      var m := a.month;
      while m + 1 < b.month
        invariant a.month <= m < b.month
        invariant DaysBeforeMonth(a.year, a.month) + a.day <= DaysBeforeMonth(a.year, m) + DaysInMonth(a.year, m)
      {
        DaysBeforeNextMonth(a.year, m);
        m := m + 1;
      }
      DaysBeforeNextMonth(a.year, m);
    }
  }

  lemma OrdinalInjective(a: Date, b: Date)
    requires Ordinal(a) == Ordinal(b)
    ensures a == b
  {
    if Before(a, b) {
      OrdinalMonotone(a, b);
    } else if Before(b, a) {
      OrdinalMonotone(b, a);
    }
  }

  /** The next calendar day is one day number later: `d + timedelta(days=1)`
      compares equal to a date exactly when its ordinal is one more. */
  lemma NextDayOrdinal(d: Date)
    requires d.year < 9999 || d.month < 12 || d.day < 31
    ensures ValidDate(NextDay(d))
    ensures Ordinal(NextDay(d)) == Ordinal(d) + 1
  {
    if d.day == DaysInMonth(d.year, d.month) {
      if d.month < 12 {
        DaysBeforeNextMonth(d.year, d.month);
      } else {
        DaysBeforeDecember(d.year);
        DaysBeforeNextYear(d.year);
      }
    }
  }

  // ---------------------------------------------------------------------
  // Weekdays and the ISO 8601 week date (`date.weekday()`, `date.isocalendar()`)
  // ---------------------------------------------------------------------

  /** `date.weekday()`: 0 for Monday to 6 for Sunday; day 1 (0001-01-01) is a
      Monday. */
  function WeekdayIndex(d: Date): (w: int)
    ensures 0 <= w < 7
  {
    (Ordinal(d) + 6) % 7
  }

  /** Python's `_isoweek1monday`: the day number of the Monday of ISO week 1
      of year `y`, the week holding the year's first Thursday. */
  function IsoWeek1Monday(y: int): int
  {
    Week1Monday(DaysBeforeYear(y) + 1)
  }

  /** The Monday of the week holding the first Thursday on or after day `first`. */
  function Week1Monday(first: int): int
  {
    var firstWeekday := (first + 6) % 7;
    if firstWeekday > 3 then first - firstWeekday + 7 else first - firstWeekday
  }

  /** `date.isocalendar()`: ISO year, ISO week (1-based) and ISO weekday
      (1 for Monday). */
  datatype IsoDate = IsoDate(year: int, week: int, weekday: int)

  function IsoCalendar(d: Date): IsoDate
  {
    IsoWeekDate(Ordinal(d), d.year, IsoWeek1Monday(d.year - 1), IsoWeek1Monday(d.year), IsoWeek1Monday(d.year + 1))
  }

  /** The body of `date.isocalendar()` for day number `today` in calendar year
      `y`, given the first Mondays of ISO years `y - 1`, `y` and `y + 1`
      (which Python computes on demand): `divmod` by 7 from the Monday of
      week 1, falling back to the previous ISO year before it and moving on
      to the next one from its first Monday. */
  function IsoWeekDate(today: int, y: int, prev: int, cur: int, next: int): IsoDate
  {
    var week := (today - cur) / 7;
    var day := (today - cur) % 7;
    if week < 0 then
      IsoDate(y - 1, (today - prev) / 7 + 1, (today - prev) % 7 + 1)
    else if week >= 52 && today >= next then
      IsoDate(y + 1, 1, day + 1)
    else
      IsoDate(y, week + 1, day + 1)
  }

  lemma ModSeven(q: int, r: int)
    requires 0 <= r < 7
    ensures (7 * q + r) % 7 == r && (7 * q + r) / 7 == q
  {
  }

  /** The result is a Monday at most three days away from `first`. */
  lemma Week1MondayFacts(first: int)
    ensures Week1Monday(first) % 7 == 1
    ensures first - 3 <= Week1Monday(first) <= first + 3
  {
    var q := (first + 6) / 7;
    var firstWeekday := (first + 6) % 7;
    assert first + 6 == 7 * q + firstWeekday;
    if firstWeekday > 3 {
      assert Week1Monday(first) == 7 * q + 1;
    } else {
      assert Week1Monday(first) == 7 * (q - 1) + 1;
      ModSeven(q - 1, 1);
    }
    ModSeven(q, 1);
  }

  /** Two Mondays 359 to 372 days apart are 52 or 53 weeks apart. */
  lemma MondayGap(a: int, b: int)
    requires a % 7 == 1 && b % 7 == 1
    requires 359 <= b - a <= 372
    ensures b - a == 364 || b - a == 371
  {
    var qa, qb := a / 7, b / 7;
    assert a == 7 * qa + 1 && b == 7 * qb + 1;
    assert b - a == 7 * (qb - qa);
  }

  /** ISO years are 52 or 53 weeks long, and each starts on a Monday at most
      three days from New Year's Day. */
  lemma IsoYearLength(y: int)
    requires y >= 1
    ensures IsoWeek1Monday(y) % 7 == 1 && IsoWeek1Monday(y + 1) % 7 == 1
    ensures DaysBeforeYear(y) + 1 - 3 <= IsoWeek1Monday(y) <= DaysBeforeYear(y) + 1 + 3
    ensures DaysBeforeYear(y + 1) + 1 - 3 <= IsoWeek1Monday(y + 1) <= DaysBeforeYear(y + 1) + 1 + 3
    ensures IsoWeek1Monday(y + 1) - IsoWeek1Monday(y) == 364 || IsoWeek1Monday(y + 1) - IsoWeek1Monday(y) == 371
  {
    var f, g := DaysBeforeYear(y) + 1, DaysBeforeYear(y + 1) + 1;
    DaysBeforeNextYear(y);
    Week1MondayFacts(f);
    Week1MondayFacts(g);
    MondayGap(Week1Monday(f), Week1Monday(g));
  }

  /** Where a day falls in an ISO year that starts on Monday `w1` and ends
      before Monday `w1next`: its week and weekday. */
  lemma WeekInYear(today: int, w1: int, w1next: int)
    requires w1 % 7 == 1 && w1 <= today < w1next
    requires w1next - w1 == 364 || w1next - w1 == 371
    ensures 0 <= (today - w1) / 7 <= 52
    ensures today == w1 + 7 * ((today - w1) / 7) + (today - w1) % 7
    ensures (today - w1) % 7 == (today + 6) % 7
  {
    var k, week, day := w1 / 7, (today - w1) / 7, (today - w1) % 7;
    assert w1 == 7 * k + 1;
    assert today + 6 == 7 * (k + week + 1) + day;
    ModSeven(k + week + 1, day);
  }

  /** The ISO week date of a day between the first Mondays `cur` of its
      calendar year and `next` of the following year, give or take the few
      days around New Year: it names the ISO year whose first Monday is on or
      before the day and whose successor's is after it, a week 1 to 53, and
      the weekday of the day. */
  lemma IsoWeekDateFacts(today: int, y: int, prev: int, cur: int, next: int, after: int)
    requires prev % 7 == 1 && cur % 7 == 1 && next % 7 == 1
    requires cur - prev == 364 || cur - prev == 371
    requires next - cur == 364 || next - cur == 371
    requires after - next == 364 || after - next == 371
    requires cur - 3 <= today && today <= next + 2
    ensures var r := IsoWeekDate(today, y, prev, cur, next);
      1 <= r.week <= 53 && r.weekday == (today + 6) % 7 + 1 &&
      (r.year == y - 1 ==> today < cur && today == prev + 7 * (r.week - 1) + (r.weekday - 1)) &&
      (r.year == y ==> cur <= today < next && today == cur + 7 * (r.week - 1) + (r.weekday - 1)) &&
      (r.year == y + 1 ==> next <= today < after && today == next + 7 * (r.week - 1) + (r.weekday - 1)) &&
      y - 1 <= r.year <= y + 1
  {
    var week, day := (today - cur) / 7, (today - cur) % 7;
    if week < 0 {
      WeekInYear(today, prev, cur);
    } else if week >= 52 && today >= next {
      WeekInYear(today, next, after);
      var k := (next - cur) / 7;
      assert next - cur == 7 * k;
      assert today - cur == 7 * k + (today - next);
      ModSeven(k, today - next);
    } else {
      assert today < next;
      WeekInYear(today, cur, next);
    }
  }

  /** What `IsoCalendarFacts` states, for day number `today`: the ISO week
      date names week `week` of ISO year `year` (its first Monday plus whole
      weeks and the weekday) and lies before the next ISO year. */
  predicate IsoPlaced(today: int, r: IsoDate)
  {
    1 <= r.week <= 53 && 1 <= r.weekday <= 7 &&
    r.weekday == (today + 6) % 7 + 1 &&
    today == IsoWeek1Monday(r.year) + 7 * (r.week - 1) + (r.weekday - 1) &&
    today < IsoWeek1Monday(r.year + 1)
  }

  /** `date.isocalendar()` places the day inside its ISO year: on or after
      that year's first Monday, before the next year's, on the weekday
      `date.weekday()` reports; the ISO year is a year of `datetime` and
      differs from the calendar year by at most one. */
  lemma IsoCalendarFacts(d: Date)
    ensures var r := IsoCalendar(d);
      1 <= r.year <= 9999 && d.year - 1 <= r.year <= d.year + 1 &&
      IsoPlaced(Ordinal(d), r) && r.weekday == WeekdayIndex(d) + 1
  {
    var today := Ordinal(d);
    OrdinalWithinYear(d);
    IsoCalendarOfDay(today, d.year);
    assert IsoCalendar(d) == IsoWeekDate(today, d.year, IsoWeek1Monday(d.year - 1), IsoWeek1Monday(d.year), IsoWeek1Monday(d.year + 1));
    assert WeekdayIndex(d) == (today + 6) % 7;
  }

  /** `IsoCalendarFacts` for day number `today` of calendar year `y`. */
  lemma IsoCalendarOfDay(today: int, y: int)
    requires 1 <= y <= 9999
    requires DaysBeforeYear(y) + 1 <= today <= DaysBeforeYear(y) + DaysInYear(y)
    ensures var r := IsoWeekDate(today, y, IsoWeek1Monday(y - 1), IsoWeek1Monday(y), IsoWeek1Monday(y + 1));
      1 <= r.year <= 9999 && y - 1 <= r.year <= y + 1 && IsoPlaced(today, r)
  {
    var w0, w1, w2, w3 := IsoWeek1Monday(y - 1), IsoWeek1Monday(y), IsoWeek1Monday(y + 1), IsoWeek1Monday(y + 2);
    IsoYearLength(y);
    IsoYearLength(y + 1);
    DaysBeforeNextYear(y);
    if y > 1 {
      IsoYearLength(y - 1);
    } else {
      FirstIsoYear();
    }
    if y == 9999 {
      LastIsoYear();
    }
    IsoPlacedYear(today, y, w0, w1, w2, w3);
  }

  /** `IsoCalendarFacts` for a day number `today` in calendar year `y`, in
      terms of the first Mondays of ISO years `y - 1` to `y + 2`. */
  lemma IsoPlacedYear(today: int, y: int, w0: int, w1: int, w2: int, w3: int)
    requires w0 == IsoWeek1Monday(y - 1) && w1 == IsoWeek1Monday(y)
    requires w2 == IsoWeek1Monday(y + 1) && w3 == IsoWeek1Monday(y + 2)
    requires w0 % 7 == 1 && w1 % 7 == 1 && w2 % 7 == 1
    requires w1 - w0 == 364 || w1 - w0 == 371
    requires w2 - w1 == 364 || w2 - w1 == 371
    requires w3 - w2 == 364 || w3 - w2 == 371
    requires w1 - 3 <= today <= w2 + 2
    requires y == 1 ==> w1 <= today
    requires y == 9999 ==> today < w2
    requires 1 <= y <= 9999
    ensures var r := IsoWeekDate(today, y, w0, w1, w2);
      1 <= r.year <= 9999 && y - 1 <= r.year <= y + 1 && IsoPlaced(today, r)
  {
    IsoWeekDateFacts(today, y, w0, w1, w2, w3);
    var r := IsoWeekDate(today, y, w0, w1, w2);
    if r.year == y - 1 {
      assert IsoWeek1Monday(r.year) == w0 && IsoWeek1Monday(r.year + 1) == w1;
    } else if r.year == y {
      assert IsoWeek1Monday(r.year) == w1 && IsoWeek1Monday(r.year + 1) == w2;
    } else {
      assert IsoWeek1Monday(r.year) == w2 && IsoWeek1Monday(r.year + 1) == w3;
    }
  }

  /** ISO year 1 starts on day 1, a Monday, 52 weeks after the (never
      reached) first Monday of ISO year 0. */
  lemma FirstIsoYear()
    ensures IsoWeek1Monday(1) == 1 && IsoWeek1Monday(0) == -363 && -363 % 7 == 1
  {
    assert DaysBeforeYear(1) == 0;
    assert Week1Monday(1) == 1;
    assert DaysBeforeYear(0) == -366;
    assert Week1Monday(-365) == -363;
  }

  /** The last day of year 9999 is before the first Monday of ISO year 10000. */
  lemma LastIsoYear()
    ensures DaysBeforeYear(10000) + 1 < IsoWeek1Monday(10000)
  {
    DaysBeforeYearClosedForm(10000);
    assert DaysBeforeYear(10000) == 3652059;
    assert Week1Monday(3652060) == 3652062;
  }

  /** The day number of the Monday that starts the week of `d`. */
  function MondayOf(d: Date): int
  {
    Ordinal(d) - WeekdayIndex(d)
  }

  /** Later ISO years start later. */
  lemma {:induction false} IsoWeek1MondayMonotone(a: int, b: int)
    requires 1 <= a < b
    ensures IsoWeek1Monday(a + 1) <= IsoWeek1Monday(b)
    decreases b - a
  {
    if a + 1 < b {
      IsoWeek1MondayMonotone(a + 1, b);
      IsoYearLength(a + 1);
    }
  }

  /** Two days have the same ISO year and week exactly when they fall in the
      same Monday-to-Sunday week. */
  lemma SameIsoWeek(a: Date, b: Date)
    ensures (IsoCalendar(a).year == IsoCalendar(b).year && IsoCalendar(a).week == IsoCalendar(b).week)
            <==> MondayOf(a) == MondayOf(b)
  {
    var ra, rb := IsoCalendar(a), IsoCalendar(b);
    IsoCalendarFacts(a);
    IsoCalendarFacts(b);
    var ma, mb := MondayOf(a), MondayOf(b);
    assert ma == IsoWeek1Monday(ra.year) + 7 * (ra.week - 1);
    assert mb == IsoWeek1Monday(rb.year) + 7 * (rb.week - 1);
    if ma == mb {
      if ra.year < rb.year {
        IsoWeek1MondayMonotone(ra.year, rb.year);
      } else if rb.year < ra.year {
        IsoWeek1MondayMonotone(rb.year, ra.year);
      }
    }
  }

  /** A date lies between the first and the last day of its year. */
  lemma OrdinalWithinYear(d: Date)
    ensures DaysBeforeYear(d.year) + 1 <= Ordinal(d) <= DaysBeforeYear(d.year) + DaysInYear(d.year)
  {
    DaysBeforeDecember(d.year);
    var m := d.month;
    while m < 12
      invariant d.month <= m <= 12
      invariant DaysBeforeMonth(d.year, d.month) + d.day <= DaysBeforeMonth(d.year, m) + DaysInMonth(d.year, m)
    {
      DaysBeforeNextMonth(d.year, m);
      m := m + 1;
    }
  }
}
