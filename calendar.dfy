/**
 * The part of Python's `datetime.date` the source uses: a date is its proleptic Gregorian
 * ordinal (`date.toordinal()`, 0001-01-01 is day 1), so `date + timedelta(days=k)` is `d + k`
 * and comparison is integer comparison. Year, month and day are recovered with `FromOrdinal`,
 * and `date(y, m, d)` / `date.replace(...)` with `MakeDate`.
 */
module Calendar {
  import opened Wrappers

  type Date = int

  datatype Ymd = Ymd(year: int, month: int, day: int)

  predicate IsLeap(y: int) {
    y % 4 == 0 && (y % 100 != 0 || y % 400 == 0)
  }

  /** `calendar.monthrange(y, m)[1]`. */
  function DaysInMonth(y: int, m: int): int
    requires 1 <= m <= 12
  {
    if m == 2 then (if IsLeap(y) then 29 else 28)
    else if m == 4 || m == 6 || m == 9 || m == 11 then 30
    else 31
  }

  function DaysInYear(y: int): int {
    if IsLeap(y) then 366 else 365
  }

  predicate Valid(d: Ymd) {
    1 <= d.month <= 12 && 1 <= d.day <= DaysInMonth(d.year, d.month)
  }

  /** Days of year `y` before the first of month `m`. */
  function DaysBeforeMonth(y: int, m: int): int
    requires 1 <= m <= 12
  {
    [0, 31, 59, 90, 120, 151, 181, 212, 243, 273, 304, 334][m - 1]
    + (if IsLeap(y) && m > 2 then 1 else 0)
  }

  /** Days before January 1st of year `y`, counted from 0001-01-01. */
  function DaysBeforeYear(y: int): int
    decreases if y >= 1 then y - 1 else 1 - y
  {
    if y == 1 then 0
    else if y > 1 then DaysBeforeYear(y - 1) + DaysInYear(y - 1)
    else DaysBeforeYear(y + 1) - DaysInYear(y)
  }

  lemma DaysBeforeYearStep(y: int)
    ensures DaysBeforeYear(y + 1) == DaysBeforeYear(y) + DaysInYear(y)
  {
  }

  /** `date.toordinal()`. */
  function ToOrdinal(d: Ymd): int
    requires Valid(d)
  {
    DaysBeforeYear(d.year) + DaysBeforeMonth(d.year, d.month) + d.day
  }

  function NextDay(d: Ymd): (r: Ymd)
    requires Valid(d)
    ensures Valid(r)
  {
    if d.day < DaysInMonth(d.year, d.month) then Ymd(d.year, d.month, d.day + 1)
    else if d.month < 12 then Ymd(d.year, d.month + 1, 1)
    else Ymd(d.year + 1, 1, 1)
  }

  function PrevDay(d: Ymd): (r: Ymd)
    requires Valid(d)
    ensures Valid(r)
  {
    if d.day > 1 then Ymd(d.year, d.month, d.day - 1)
    else if d.month > 1 then Ymd(d.year, d.month - 1, DaysInMonth(d.year, d.month - 1))
    else Ymd(d.year - 1, 12, 31)
  }

  lemma NextDayOrdinal(d: Ymd)
    requires Valid(d)
    ensures ToOrdinal(NextDay(d)) == ToOrdinal(d) + 1
  {
    if d.day == DaysInMonth(d.year, d.month) && d.month == 12 {
      DaysBeforeYearStep(d.year);
    }
  }

  lemma PrevDayOrdinal(d: Ymd)
    requires Valid(d)
    ensures ToOrdinal(PrevDay(d)) == ToOrdinal(d) - 1
  {
    if d.day == 1 && d.month == 1 {
      DaysBeforeYearStep(d.year - 1);
    }
  }

  /** `date.fromordinal(n)`, extended to every integer. */
  function FromOrdinal(n: int): (d: Ymd)
    decreases if n >= 1 then n - 1 else 1 - n
    ensures Valid(d)
  {
    if n == 1 then Ymd(1, 1, 1)
    else if n > 1 then NextDay(FromOrdinal(n - 1))
    else PrevDay(FromOrdinal(n + 1))
  }

  lemma {:induction false} ToFromOrdinal(n: int)
    ensures ToOrdinal(FromOrdinal(n)) == n
    decreases if n >= 1 then n - 1 else 1 - n
  {
    if n > 1 {
      ToFromOrdinal(n - 1);
      NextDayOrdinal(FromOrdinal(n - 1));
    } else if n < 1 {
      ToFromOrdinal(n + 1);
      PrevDayOrdinal(FromOrdinal(n + 1));
    }
  }

  lemma DayBoundInYear(d: Ymd)
    requires Valid(d)
    ensures 1 <= DaysBeforeMonth(d.year, d.month) + d.day <= DaysInYear(d.year)
  {
  }

  lemma {:induction false} DaysBeforeYearMonotone(y1: int, y2: int)
    requires y1 < y2
    ensures DaysBeforeYear(y1) + DaysInYear(y1) <= DaysBeforeYear(y2)
    decreases y2 - y1
  {
    DaysBeforeYearStep(y1);
    if y1 + 1 < y2 {
      DaysBeforeYearMonotone(y1 + 1, y2);
    }
  }

  /** Distinct valid dates have distinct ordinals. */
  lemma ToOrdinalInjective(a: Ymd, b: Ymd)
    requires Valid(a) && Valid(b) && ToOrdinal(a) == ToOrdinal(b)
    ensures a == b
  {
    DayBoundInYear(a);
    DayBoundInYear(b);
    if a.year < b.year {
      DaysBeforeYearMonotone(a.year, b.year);
      assert false;
    } else if b.year < a.year {
      DaysBeforeYearMonotone(b.year, a.year);
      assert false;
    }
    if a.month < b.month {
      MonthsApart(a.year, a.month, b.month);
      assert false;
    } else if b.month < a.month {
      MonthsApart(a.year, b.month, a.month);
      assert false;
    }
  }

  lemma MonthsApart(y: int, m1: int, m2: int)
    requires 1 <= m1 < m2 <= 12
    ensures DaysBeforeMonth(y, m1) + DaysInMonth(y, m1) <= DaysBeforeMonth(y, m2)
  {
  }

  /** `date.fromordinal(d.toordinal()) == d`. */
  lemma FromToOrdinal(d: Ymd)
    requires Valid(d)
    ensures FromOrdinal(ToOrdinal(d)) == d
  {
    ToFromOrdinal(ToOrdinal(d));
    ToOrdinalInjective(FromOrdinal(ToOrdinal(d)), d);
  }

  function YearOf(d: Date): int { FromOrdinal(d).year }
  function MonthOf(d: Date): int { FromOrdinal(d).month }
  function DayOf(d: Date): int { FromOrdinal(d).day }

  /** `date(y, m, day)` and `date.replace(...)`: `None` where Python raises ValueError. */
  function MakeDate(y: int, m: int, day: int): (r: Option<Date>)
    ensures r.Some? <==> Valid(Ymd(y, m, day))
    ensures r.Some? ==> FromOrdinal(r.value) == Ymd(y, m, day)
  {
    if Valid(Ymd(y, m, day)) then
      FromToOrdinal(Ymd(y, m, day));
      Some(ToOrdinal(Ymd(y, m, day)))
    else None
  }

  /** `date.weekday()`: Monday is 0 and Sunday is 6. */
  function Weekday(d: Date): int {
    (d + 6) % 7
  }

  /** The next day is in the same month unless `d` is the month's last day. */
  lemma NextDate(d: Date)
    ensures FromOrdinal(d + 1) == NextDay(FromOrdinal(d))
  {
    ToFromOrdinal(d);
    NextDayOrdinal(FromOrdinal(d));
    ToFromOrdinal(d + 1);
    ToOrdinalInjective(FromOrdinal(d + 1), NextDay(FromOrdinal(d)));
  }

  /** Moving `k` days forward inside a month keeps the year and month. */
  lemma {:induction false} WithinMonth(d: Date, k: nat)
    requires DayOf(d) + k <= DaysInMonth(YearOf(d), MonthOf(d))
    ensures FromOrdinal(d + k) == Ymd(YearOf(d), MonthOf(d), DayOf(d) + k)
  {
    if k > 0 {
      WithinMonth(d, k - 1);
      NextDate(d + k - 1);
    }
  }

  /** The first day of `d`'s month is `DayOf(d) - 1` days before `d`. */
  lemma MonthStart(d: Date)
    ensures MakeDate(YearOf(d), MonthOf(d), 1) == Some(d - DayOf(d) + 1)
  {
    var ymd := FromOrdinal(d);
    var e := Ymd(ymd.year, ymd.month, 1);
    assert Valid(e);
    assert ToOrdinal(e) == d - ymd.day + 1 by {
      ToFromOrdinal(d);
      SameMonthOrdinal(ymd, e);
    }
    assert MakeDate(ymd.year, ymd.month, 1) == Some(ToOrdinal(e));
  }

  /** Within a month, ordinals differ by the difference of the days. */
  lemma SameMonthOrdinal(a: Ymd, b: Ymd)
    requires Valid(a) && Valid(b) && a.year == b.year && a.month == b.month
    ensures ToOrdinal(b) == ToOrdinal(a) + b.day - a.day
  {
  }

  lemma MonthEndOf(ymd: Ymd, n: int)
    requires Valid(ymd) && ToOrdinal(ymd) == n
    ensures MakeDate(ymd.year, ymd.month, DaysInMonth(ymd.year, ymd.month))
      == Some(n + DaysInMonth(ymd.year, ymd.month) - ymd.day)
  {
    var e := Ymd(ymd.year, ymd.month, DaysInMonth(ymd.year, ymd.month));
    SameMonthOrdinal(ymd, e);
  }

  /** The last day of `d`'s month is `DaysInMonth - DayOf(d)` days after `d`. */
  lemma MonthEnd(d: Date)
    ensures var ymd := FromOrdinal(d);
      MakeDate(ymd.year, ymd.month, DaysInMonth(ymd.year, ymd.month))
      == Some(d + DaysInMonth(ymd.year, ymd.month) - ymd.day)
  {
    ToFromOrdinal(d);
    MonthEndOf(FromOrdinal(d), d);
  }
}
