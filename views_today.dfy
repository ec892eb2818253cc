/**
 * The period classes of `views_today.py` (`Daily`, `Weekly`, `Monthly`): their bounds, canonical
 * date, neighbours and equality; the thread-to-period mapping and the larger-plan lookup; and
 * the week flags of the monthly summary calendar. Dates are day ordinals; the timezone-aware
 * start and end of a day are represented by the day itself.
 */
module ViewsToday {
  import opened Wrappers
  import opened Calendar
  import DateTimeUtils

  datatype PeriodClass = Daily | Weekly | Monthly

  /** A period object: its class and the date it was built from. */
  datatype Period = Period(cls: PeriodClass, date: Date)

  /** `_calculate_start`. */
  function Start(p: Period): Date {
    match p.cls
    case Daily => p.date
    case Weekly => DateTimeUtils.AdjustStartDateToMonday(p.date)
    case Monthly => DateTimeUtils.FirstDayOfTheMonth(p.date)
  }

  /** `_calculate_end`. */
  function End(p: Period): Date {
    match p.cls
    case Daily => p.date
    case Weekly => DateTimeUtils.MakeLastDayOfTheWeek(p.date)
    case Monthly => DateTimeUtils.MakeLastDayOfTheMonth(p.date)
  }

  /** `get_canonical_date`: the day itself, the week's Sunday, the month's last day. */
  function CanonicalDate(p: Period): Date {
    match p.cls
    case Daily => p.date
    case Weekly => DateTimeUtils.MakeLastDayOfTheWeek(p.date)
    case Monthly => DateTimeUtils.MakeLastDayOfTheMonth(p.date)
  }

  predicate IsCanonical(p: Period) {
    p.date == CanonicalDate(p)
  }

  /** `canonical()`: the same class built from the canonical date. */
  function Canonical(p: Period): Period {
    Period(p.cls, CanonicalDate(p))
  }

  /** `get_previous`. */
  function Previous(p: Period): Period {
    match p.cls
    case Daily => Period(Daily, p.date - 1)
    case Weekly => Canonical(Period(Weekly, DateTimeUtils.AdjustStartDateToMonday(p.date) - 7))
    case Monthly => Canonical(Period(Monthly, DateTimeUtils.FirstDayOfTheMonth(p.date) - 1))
  }

  /** `get_next`. */
  function Next(p: Period): Period {
    match p.cls
    case Daily => Period(Daily, p.date + 1)
    case Weekly => Canonical(Period(Weekly, DateTimeUtils.MakeLastDayOfTheWeek(p.date) + 1))
    case Monthly => Canonical(Period(Monthly, DateTimeUtils.MakeLastDayOfTheMonth(p.date) + 1))
  }

  /** `__eq__`: equal bounds. */
  predicate SamePeriod(p: Period, q: Period) {
    Start(p) == Start(q) && End(p) == End(q)
  }

  function MonthKey(d: Date): (int, int) {
    (YearOf(d), MonthOf(d))
  }

  // ---- calendar facts ----

  /** Dates with the same year, month and day are the same date. */
  lemma SameYmdSameDate(a: Date, b: Date)
    requires FromOrdinal(a) == FromOrdinal(b)
    ensures a == b
  {
    ToFromOrdinal(a);
    ToFromOrdinal(b);
  }

  /** First and last day depend only on the month. */
  lemma SameMonthSameBounds(a: Date, b: Date)
    requires MonthKey(a) == MonthKey(b)
    ensures DateTimeUtils.FirstDayOfTheMonth(a) == DateTimeUtils.FirstDayOfTheMonth(b) && DateTimeUtils.MakeLastDayOfTheMonth(a) == DateTimeUtils.MakeLastDayOfTheMonth(b)
  {
    SameYmdSameDate(DateTimeUtils.FirstDayOfTheMonth(a), DateTimeUtils.FirstDayOfTheMonth(b));
    SameYmdSameDate(DateTimeUtils.MakeLastDayOfTheMonth(a), DateTimeUtils.MakeLastDayOfTheMonth(b));
  }

  /** A month's last day is its own month end. */
  lemma LastOfMonthFixed(d: Date)
    requires DayOf(d) == DaysInMonth(YearOf(d), MonthOf(d))
    ensures DateTimeUtils.MakeLastDayOfTheMonth(d) == d
  {
    SameYmdSameDate(DateTimeUtils.MakeLastDayOfTheMonth(d), d);
  }

  /** A month's first day is its own month start. */
  lemma FirstOfMonthFixed(d: Date)
    requires DayOf(d) == 1
    ensures DateTimeUtils.FirstDayOfTheMonth(d) == d
  {
    SameYmdSameDate(DateTimeUtils.FirstDayOfTheMonth(d), d);
  }

  /** The day after a month's last day is the first of the next month. */
  lemma AfterMonthEnd(d: Date)
    requires DayOf(d) == DaysInMonth(YearOf(d), MonthOf(d))
    ensures DayOf(d + 1) == 1
    ensures MonthKey(d + 1) == (DateTimeUtils.NextMonthYear(d), DateTimeUtils.NextMonth(d))
  {
    NextDate(d);
  }

  /** The day before a month's first day is the last day of the previous month. */
  lemma BeforeMonthStart(d: Date)
    requires DayOf(d) == 1
    ensures DayOf(d - 1) == DaysInMonth(YearOf(d - 1), MonthOf(d - 1))
    ensures MonthKey(d) == (DateTimeUtils.NextMonthYear(d - 1), DateTimeUtils.NextMonth(d - 1))
  {
    NextDate(d - 1);
  }

  // ---- period properties ----

  /** The canonical date is the period's end, and the period holds its own date. */
  lemma CanonicalIsEnd(p: Period)
    ensures CanonicalDate(p) == End(p)
    ensures Start(p) <= p.date <= End(p)
  {
  }

  /** `is_canonical` per class: any day, a Sunday, a month's last day. */
  lemma IsCanonicalIff(p: Period)
    ensures p.cls == Daily ==> IsCanonical(p)
    ensures p.cls == Weekly ==> (IsCanonical(p) <==> Weekday(p.date) == 6)
    ensures p.cls == Monthly ==> (IsCanonical(p) <==> DayOf(p.date) == DaysInMonth(YearOf(p.date), MonthOf(p.date)))
  {
    if p.cls == Monthly && DayOf(p.date) == DaysInMonth(YearOf(p.date), MonthOf(p.date)) {
      LastOfMonthFixed(p.date);
    }
  }

  /** `canonical()` is canonical and denotes the same period. */
  lemma CanonicalIsCanonical(p: Period)
    ensures IsCanonical(Canonical(p))
    ensures SamePeriod(Canonical(p), p)
  {
    if p.cls == Monthly {
      var c := CanonicalDate(p);
      SameMonthSameBounds(c, p.date);
    }
  }

  /** Periods of one class are equal exactly when their canonical dates are. */
  lemma SamePeriodIffSameCanonical(p: Period, q: Period)
    requires p.cls == q.cls
    ensures SamePeriod(p, q) <==> CanonicalDate(p) == CanonicalDate(q)
  {
    if p.cls == Monthly && CanonicalDate(p) == CanonicalDate(q) {
      SameMonthSameBounds(p.date, q.date);
    }
  }

  /** Two dates give equal `Weekly` periods exactly when they share a Monday. */
  lemma SameWeekSamePeriod(a: Date, b: Date)
    ensures SamePeriod(Period(Weekly, a), Period(Weekly, b))
      <==> DateTimeUtils.AdjustStartDateToMonday(a) == DateTimeUtils.AdjustStartDateToMonday(b)
  {
  }

  /** A day's neighbours are the days before and after it. */
  lemma DailyNeighbours(d: Date)
    ensures Previous(Period(Daily, d)) == Period(Daily, d - 1)
    ensures Next(Period(Daily, d)) == Period(Daily, d + 1)
  {
  }

  /** A week's neighbours are the canonical Sundays one week before and after its own. */
  lemma WeeklyNeighbours(d: Date)
    ensures var s := CanonicalDate(Period(Weekly, d));
      Previous(Period(Weekly, d)) == Period(Weekly, s - 7)
      && Next(Period(Weekly, d)) == Period(Weekly, s + 7)
    ensures IsCanonical(Previous(Period(Weekly, d))) && IsCanonical(Next(Period(Weekly, d)))
  {
  }

  /** The month after `d`'s, as a (year, month) key. */
  function NextMonthKey(d: Date): (int, int) {
    (DateTimeUtils.NextMonthYear(d), DateTimeUtils.NextMonth(d))
  }

  /** The day before a month's first day ends the previous month. */
  lemma PreviousMonthEnd(d: Date)
    ensures var prev := DateTimeUtils.FirstDayOfTheMonth(d) - 1;
      DateTimeUtils.MakeLastDayOfTheMonth(prev) == prev && NextMonthKey(prev) == MonthKey(d)
      && DayOf(prev) == DaysInMonth(YearOf(prev), MonthOf(prev))
  {
    var first := DateTimeUtils.FirstDayOfTheMonth(d);
    BeforeMonthStart(first);
    LastOfMonthFixed(first - 1);
  }

  /** The day after a month's last day starts the next month. */
  lemma NextMonthStart(d: Date)
    ensures var next := DateTimeUtils.MakeLastDayOfTheMonth(d) + 1;
      DateTimeUtils.FirstDayOfTheMonth(next) == next && MonthKey(next) == NextMonthKey(d)
  {
    var last := DateTimeUtils.MakeLastDayOfTheMonth(d);
    AfterMonthEnd(last);
    FirstOfMonthFixed(last + 1);
  }

  lemma MonthlyPreviousUnfold(d: Date)
    ensures Previous(Period(Monthly, d)) == Period(Monthly, DateTimeUtils.MakeLastDayOfTheMonth(DateTimeUtils.FirstDayOfTheMonth(d) - 1))
  {
  }

  lemma MonthlyNextUnfold(d: Date)
    ensures Next(Period(Monthly, d)) == Period(Monthly, DateTimeUtils.MakeLastDayOfTheMonth(DateTimeUtils.MakeLastDayOfTheMonth(d) + 1))
  {
  }

  /** A month's neighbours are the canonical last days of the months before and after it. */
  lemma MonthlyNeighbours(d: Date)
    ensures var prev := Previous(Period(Monthly, d)).date;
      prev == DateTimeUtils.FirstDayOfTheMonth(d) - 1 && NextMonthKey(prev) == MonthKey(d)
      && DayOf(prev) == DaysInMonth(YearOf(prev), MonthOf(prev))
    ensures var next := Next(Period(Monthly, d)).date;
      MonthKey(next) == NextMonthKey(d) && DayOf(next) == DaysInMonth(YearOf(next), MonthOf(next))
  {
    MonthlyPreviousUnfold(d);
    MonthlyNextUnfold(d);
    PreviousMonthEnd(d);
    NextMonthStart(d);
    var n := DateTimeUtils.MakeLastDayOfTheMonth(d) + 1;
    SameMonthSameBounds(DateTimeUtils.MakeLastDayOfTheMonth(n), n);
  }

  /** Back one month and forward again ends on the month's last day. */
  lemma MonthlyBackForth(d: Date)
    ensures Next(Previous(Period(Monthly, d))) == Period(Monthly, DateTimeUtils.MakeLastDayOfTheMonth(d))
  {
    var first := DateTimeUtils.FirstDayOfTheMonth(d);
    MonthlyPreviousUnfold(d);
    PreviousMonthEnd(d);
    MonthlyNextUnfold(first - 1);
    SameMonthSameBounds(first, d);
  }

  /** Forward one month and back again ends on the month's last day. */
  lemma MonthlyForthBack(d: Date)
    ensures Previous(Next(Period(Monthly, d))) == Period(Monthly, DateTimeUtils.MakeLastDayOfTheMonth(d))
  {
    var last := DateTimeUtils.MakeLastDayOfTheMonth(d);
    var n := last + 1;
    NextMonthStart(d);
    var m := DateTimeUtils.MakeLastDayOfTheMonth(n);
    MonthlyNextUnfold(d);
    MonthlyPreviousUnfold(m);
    SameMonthSameBounds(m, n);
    assert DateTimeUtils.FirstDayOfTheMonth(m) == n;
    SameMonthSameBounds(last, d);
    LastOfMonthFixed(last);
  }

  /** Stepping back then forward, or forward then back, lands on the canonical form. */
  lemma NextPreviousRoundTrip(p: Period)
    ensures Next(Previous(p)) == Canonical(p)
    ensures Previous(Next(p)) == Canonical(p)
  {
    if p.cls == Monthly {
      MonthlyBackForth(p.date);
      MonthlyForthBack(p.date);
    }
  }

  // ---- threads and plans ----

  /** `get_period_by_thread`. */
  function PeriodByThread(thread: string): (c: PeriodClass)
    ensures c == Weekly <==> thread == "Weekly"
    ensures c == Monthly <==> thread == "big-picture"
  {
    if thread == "Weekly" then Weekly
    else if thread == "big-picture" then Monthly
    else Daily
  }

  /** The `mapping` of `get_larger_plan`: the next thread up and its period class. */
  function LargerThread(thread: string): (r: Option<(string, PeriodClass)>)
    ensures r.Some? <==> thread == "Daily" || thread == "Weekly"
    ensures r.Some? ==> PeriodByThread(r.value.0) == r.value.1
  {
    if thread == "Weekly" then Some(("big-picture", Monthly))
    else if thread == "Daily" then Some(("Weekly", Weekly))
    else None
  }

  /**
   * `get_larger_plan`: the key `(pub_date, thread)` of the plan of the next larger period, looked
   * up in the set of stored plan keys.
   */
  function GetLargerPlan(p: Period, thread: string, plans: set<(Date, string)>): (r: Option<(Date, string)>)
    ensures r.Some? ==> r.value in plans
    ensures thread != "Daily" && thread != "Weekly" ==> r.None?
    ensures thread == "Daily" ==> (r.Some? <==> (DateTimeUtils.MakeLastDayOfTheWeek(CanonicalDate(p)), "Weekly") in plans)
    ensures thread == "Weekly" ==> (r.Some? <==> (DateTimeUtils.MakeLastDayOfTheMonth(CanonicalDate(p)), "big-picture") in plans)
  {
    match LargerThread(thread)
    case None => None
    case Some((larger, cls)) =>
      var key := (CanonicalDate(Period(cls, CanonicalDate(p))), larger);
      if key in plans then Some(key) else None
  }

  /** The larger plan is dated on the canonical date of its own period, and that period holds `p`'s end. */
  lemma LargerPlanEnclosesPeriod(p: Period, thread: string, plans: set<(Date, string)>)
    requires GetLargerPlan(p, thread, plans).Some?
    ensures var key := GetLargerPlan(p, thread, plans).value;
      var larger := Period(PeriodByThread(key.1), key.0);
      IsCanonical(larger) && Start(larger) <= End(p) <= End(larger)
  {
    var key := GetLargerPlan(p, thread, plans).value;
    var c := CanonicalDate(p);
    if thread == "Weekly" {
      var last := DateTimeUtils.MakeLastDayOfTheMonth(c);
      SameMonthSameBounds(last, c);
      LastOfMonthFixed(last);
    }
  }

  // ---- monthly summary calendar ----

  /** A stored reflection row counts when it is a big-picture one dated within `[lo, hi]`. */
  predicate InRange(row: (Date, string), lo: Date, hi: Date) {
    lo <= row.0 <= hi && row.1 == "big-picture"
  }

  /** The months that have a big-picture reflection dated within `[lo, hi]`. */
  function MonthsWithSummaries(reflections: seq<(Date, string)>, lo: Date, hi: Date): set<(int, int)>
  {
    if reflections == [] then {}
    else
      var n := |reflections| - 1;
      var row := reflections[n];
      MonthsWithSummaries(reflections[..n], lo, hi) + (if InRange(row, lo, hi) then {MonthKey(row.0)} else {})
  }

  /** A month has a summary exactly when some big-picture reflection in range falls in it. */
  lemma {:induction false} MonthsWithSummariesSpec(reflections: seq<(Date, string)>, lo: Date, hi: Date, key: (int, int))
    ensures key in MonthsWithSummaries(reflections, lo, hi) <==>
      exists i :: 0 <= i < |reflections| && InRange(reflections[i], lo, hi) && MonthKey(reflections[i].0) == key
  {
    if reflections != [] {
      var n := |reflections| - 1;
      var init := reflections[..n];
      MonthsWithSummariesSpec(init, lo, hi, key);
      if key in MonthsWithSummaries(init, lo, hi) {
        var i :| 0 <= i < n && InRange(init[i], lo, hi) && MonthKey(init[i].0) == key;
        assert reflections[i] == init[i];
      }
      if exists i :: 0 <= i < |reflections| && InRange(reflections[i], lo, hi) && MonthKey(reflections[i].0) == key {
        var i :| 0 <= i < |reflections| && InRange(reflections[i], lo, hi) && MonthKey(reflections[i].0) == key;
        if i < n {
          assert init[i] == reflections[i];
        }
      }
    }
  }

  /** Some day of `[first, last]` lies in a month of `months`. */
  predicate TouchesMonth(first: Date, last: Date, months: set<(int, int)>) {
    exists day :: first <= day <= last && MonthKey(day) in months
  }

  /** The inner loop of `monthly_summary_calendar`: 1 when a day of the week is in a summarised month. */
  method WeekHasSummary(first: Date, last: Date, months: set<(int, int)>) returns (hasSummary: int)
    ensures hasSummary == (if TouchesMonth(first, last, months) then 1 else 0)
  {
    hasSummary := 0;
    var currentDay := first;
    while currentDay <= last
      invariant first <= currentDay && hasSummary == 0
      invariant forall day :: first <= day < currentDay ==> MonthKey(day) !in months
      decreases last - currentDay
    {
      if MonthKey(currentDay) in months {
        hasSummary := 1;
        break;
      }
      currentDay := currentDay + 1;
    }
  }

  /** The months of the stored reflections, gathered one row at a time. */
  method CollectMonths(reflections: seq<(Date, string)>, lo: Date, hi: Date) returns (months: set<(int, int)>)
    ensures months == MonthsWithSummaries(reflections, lo, hi)
  {
    months := {};
    for i := 0 to |reflections|
      invariant months == MonthsWithSummaries(reflections[..i], lo, hi)
    {
      var r := reflections[i];
      assert reflections[..i + 1][..i] == reflections[..i];
      if InRange(r, lo, hi) {
        months := months + {MonthKey(r.0)};
      }
    }
    assert reflections[..|reflections|] == reflections;
  }

  /**
   * `monthly_summary_calendar`: one cell per week from the Monday on or before `start` up to
   * `end`, dated on the week's Sunday, counting 1 exactly when a day of that week lies in a month
   * with a big-picture reflection dated in the range. `reflections` stands for the stored
   * `(pub_date, thread name)` rows.
   */
  method MonthlySummaryCalendar(start: Date, end: Date, reflections: seq<(Date, string)>)
    returns (result: seq<DateTimeUtils.DayCount>)
    ensures var monday := DateTimeUtils.AdjustStartDateToMonday(start);
      |result| == (if end < monday then 0 else (end - monday) / 7 + 1)
    ensures var monday := DateTimeUtils.AdjustStartDateToMonday(start);
      var months := MonthsWithSummaries(reflections, monday, end);
      forall i :: 0 <= i < |result| ==>
        var week := DateTimeUtils.GetWeekPeriod(monday + 7 * i);
        result[i] == DateTimeUtils.DayCount(week.end, if TouchesMonth(week.start, week.end, months) then 1 else 0)
  {
    var monday := DateTimeUtils.AdjustStartDateToMonday(start);
    var months := CollectMonths(reflections, monday, end);
    var generated := DateTimeUtils.GeneratePeriods(monday, end, DateTimeUtils.Weekly);
    DateTimeUtils.WeeklyPeriodsAreSteps(monday, end);
    result := FlagWeeks(generated.value, months);
  }

  /** The outer loop of `monthly_summary_calendar`: one cell per week, dated on its last day. */
  method FlagWeeks(weeks: seq<DateTimeUtils.Period>, months: set<(int, int)>)
    returns (result: seq<DateTimeUtils.DayCount>)
    ensures |result| == |weeks|
    ensures forall k :: 0 <= k < |weeks| ==>
      result[k] == DateTimeUtils.DayCount(weeks[k].end, if TouchesMonth(weeks[k].start, weeks[k].end, months) then 1 else 0)
  {
    result := [];
    for i := 0 to |weeks|
      invariant |result| == i
      invariant forall k :: 0 <= k < i ==>
        result[k] == DateTimeUtils.DayCount(weeks[k].end, if TouchesMonth(weeks[k].start, weeks[k].end, months) then 1 else 0)
    {
      var hasSummary := WeekHasSummary(weeks[i].start, weeks[i].end, months);
      result := result + [DateTimeUtils.DayCount(weeks[i].end, hasSummary)];
    }
  }
}
