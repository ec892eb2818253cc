/**
 * Date helpers (`utils/datetime.py`): day ranges, snapping a date to its Monday, its Sunday or
 * the last day of its month, the week and month periods around a date, and the list of distinct
 * periods met while stepping from one date to another. Dates are day ordinals (`Calendar.Date`).
 */
module DateTimeUtils {
  import opened Wrappers
  import opened Calendar

  /** `DayCount`: a calendar cell, a date and the number shown for it. */
  datatype DayCount = DayCount(date: Date, count: int)

  /** `date_range_generator`: every day from `start` to `end` inclusive, nothing if `start > end`. */
  method DateRange(start: Date, end: Date) returns (days: seq<Date>)
    ensures |days| == if end < start then 0 else end - start + 1
    ensures forall i :: 0 <= i < |days| ==> days[i] == start + i
  {
    days := [];
    var current := start;
    while current <= end
      invariant current == start + |days|
      invariant current <= end + 1 || days == []
      invariant forall i :: 0 <= i < |days| ==> days[i] == start + i
      decreases end - current
    {
      days := days + [current];
      current := current + 1;
    }
  }

  /** `adjust_start_date_to_monday`: the Monday of the date's week, the date itself on a Monday. */
  function AdjustStartDateToMonday(d: Date): (r: Date)
    ensures Weekday(r) == 0 && d - 6 <= r <= d
  {
    if Weekday(d) == 0 then d else d - Weekday(d)
  }

  /** `adjust_date_to_sunday`: the Sunday of the date's week, the date itself on a Sunday. */
  function AdjustDateToSunday(d: Date): (r: Date)
    ensures Weekday(r) == 6 && d <= r <= d + 6
  {
    d + (6 - Weekday(d)) % 7
  }

  /** `make_last_day_of_the_week`: the date moved forward to its Sunday. */
  function MakeLastDayOfTheWeek(d: Date): (r: Date)
    ensures Weekday(r) == 6 && d <= r <= d + 6
  {
    d + (6 - Weekday(d))
  }

  /** The two ways of reaching the week's Sunday agree. */
  lemma SundaysAgree(d: Date)
    ensures AdjustDateToSunday(d) == MakeLastDayOfTheWeek(d)
  {
  }

  /** The week's Sunday is six days after its Monday. */
  lemma WeekBrackets(d: Date)
    ensures MakeLastDayOfTheWeek(d) == AdjustStartDateToMonday(d) + 6
  {
  }

  /** `date.replace(day=1)`: the first day of the date's month, `DayOf(d) - 1` days back. */
  function FirstDayOfTheMonth(d: Date): (r: Date)
    ensures FromOrdinal(r) == Ymd(YearOf(d), MonthOf(d), 1) && r <= d
  {
    MonthStart(d);
    d - DayOf(d) + 1
  }

  /** `make_last_day_of_the_month`: same year and month, the day set to the month's length. */
  function MakeLastDayOfTheMonth(d: Date): (r: Date)
    ensures FromOrdinal(r) == Ymd(YearOf(d), MonthOf(d), DaysInMonth(YearOf(d), MonthOf(d))) && d <= r
  {
    MonthEnd(d);
    d + DaysInMonth(YearOf(d), MonthOf(d)) - DayOf(d)
  }

  /** The first day is what `date.replace(day=1)` builds. */
  lemma FirstDayIsReplacement(d: Date)
    ensures MakeDate(YearOf(d), MonthOf(d), 1) == Some(FirstDayOfTheMonth(d))
  {
    var r := FirstDayOfTheMonth(d);
    assert r == d - DayOf(d) + 1;
    MonthStart(d);
  }

  /** The last day is what `date.replace(day=monthrange(...)[1])` builds. */
  lemma LastDayIsReplacement(d: Date)
    ensures MakeDate(YearOf(d), MonthOf(d), DaysInMonth(YearOf(d), MonthOf(d))) == Some(MakeLastDayOfTheMonth(d))
  {
    var r := MakeLastDayOfTheMonth(d);
    assert r == d + DaysInMonth(YearOf(d), MonthOf(d)) - DayOf(d);
    MonthEnd(d);
  }

  /** A `(start, end)` period. */
  datatype Period = Period(start: Date, end: Date)

  /** `get_week_period`: the Monday to Sunday week holding the date. */
  function GetWeekPeriod(d: Date): (p: Period)
    ensures p.start <= d <= p.end && p.end == p.start + 6
    ensures Weekday(p.start) == 0 && Weekday(p.end) == 6
  {
    var monday := AdjustStartDateToMonday(d);
    Period(monday, monday + 6)
  }

  /** `get_month_period`: the first to the last day of the date's month. */
  function GetMonthPeriod(d: Date): (p: Period)
    ensures p.start <= d <= p.end
    ensures FromOrdinal(p.start) == Ymd(YearOf(d), MonthOf(d), 1)
    ensures FromOrdinal(p.end) == Ymd(YearOf(d), MonthOf(d), DaysInMonth(YearOf(d), MonthOf(d)))
  {
    Period(FirstDayOfTheMonth(d), MakeLastDayOfTheMonth(d))
  }

  /** Two dates share a week period exactly when they share a Monday. */
  lemma SameWeekSamePeriod(a: Date, b: Date)
    ensures GetWeekPeriod(a) == GetWeekPeriod(b) <==> AdjustStartDateToMonday(a) == AdjustStartDateToMonday(b)
  {
  }

  /** The `period_func` argument of `generate_periods`. */
  datatype PeriodKind = Weekly | Monthly

  function PeriodOf(kind: PeriodKind, d: Date): Period {
    match kind
    case Weekly => GetWeekPeriod(d)
    case Monthly => GetMonthPeriod(d)
  }

  /**
   * The step of `generate_periods`: seven days for weeks; for months the same day of the next
   * month, `None` where that day does not exist (the `ValueError` of `date.replace`).
   */
  function Step(kind: PeriodKind, d: Date): (r: Option<Date>)
    ensures r.Some? ==> r.value > d
    ensures kind.Weekly? ==> r == Some(d + 7)
  {
    match kind
    case Weekly => Some(d + 7)
    case Monthly =>
      var ymd := FromOrdinal(d);
      var r := MakeDate(NextMonthYear(d), NextMonth(d), ymd.day);
      if r.Some? then
        NextMonthLater(d, r.value);
        r
      else r
  }

  /** A monthly step fails exactly when the next month lacks the day, and otherwise keeps it. */
  lemma MonthlyStep(d: Date)
    ensures Step(Monthly, d).None? <==> DayOf(d) > DaysInMonth(NextMonthYear(d), NextMonth(d))
    ensures Step(Monthly, d).Some? ==>
      FromOrdinal(Step(Monthly, d).value) == Ymd(NextMonthYear(d), NextMonth(d), DayOf(d))
  {
  }

  /** The year and month after `d`'s month. */
  function NextMonthYear(d: Date): int {
    if MonthOf(d) == 12 then YearOf(d) + 1 else YearOf(d)
  }

  function NextMonth(d: Date): (m: int)
    ensures 1 <= m <= 12
  {
    if MonthOf(d) == 12 then 1 else MonthOf(d) + 1
  }

  /** The same day of the next month comes later. */
  lemma NextMonthLater(d: Date, n: Date)
    requires FromOrdinal(n) == Ymd(NextMonthYear(d), NextMonth(d), DayOf(d))
    ensures n > d
  {
    var a := FromOrdinal(d);
    var b := FromOrdinal(n);
    ToFromOrdinal(d);
    ToFromOrdinal(n);
    if a.month == 12 {
      DaysBeforeYearStep(a.year);
      DayBoundInYear(a);
    } else {
      MonthsApart(a.year, a.month, a.month + 1);
    }
  }

  /** The dates `generate_periods` visits from `current` on, or `Err` where a monthly step fails. */
  function Walk(current: Date, end: Date, kind: PeriodKind): (r: Result<seq<Date>, string>)
    decreases end - current
    ensures r.Ok? ==> forall i :: 0 <= i < |r.value| ==> current <= r.value[i] <= end
  {
    if current > end then Ok([])
    else
      match Step(kind, current)
      case None => Err("day is out of range for month")
      case Some(next) =>
        match Walk(next, end, kind)
        case Err(e) => Err(e)
        case Ok(rest) => Ok([current] + rest)
  }

  /** `v + rest` for a walk that did not fail. */
  function Prepend(v: seq<Date>, w: Result<seq<Date>, string>): Result<seq<Date>, string> {
    match w
    case Ok(rest) => Ok(v + rest)
    case Err(e) => Err(e)
  }

  /** The period of every visited date. */
  function PeriodsOf(kind: PeriodKind, ds: seq<Date>): (ps: seq<Period>)
    ensures |ps| == |ds| && forall i :: 0 <= i < |ds| ==> ps[i] == PeriodOf(kind, ds[i])
  {
    if ds == [] then [] else PeriodsOf(kind, ds[..|ds| - 1]) + [PeriodOf(kind, ds[|ds| - 1])]
  }

  /** The distinct elements of `ps`, in the order they are first met. */
  function Dedup(ps: seq<Period>): (r: seq<Period>)
    ensures NoDuplicates(r)
    ensures forall p :: p in r <==> p in ps
  {
    if ps == [] then []
    else
      var d := Dedup(ps[..|ps| - 1]);
      assert forall p :: p in ps <==> p in ps[..|ps| - 1] || p == ps[|ps| - 1];
      if ps[|ps| - 1] in d then d else d + [ps[|ps| - 1]]
  }

  predicate NoDuplicates<T(==)>(s: seq<T>) {
    forall i, j :: 0 <= i < j < |s| ==> s[i] != s[j]
  }

  /** Without duplicates there is nothing to remove. */
  lemma {:induction false} DedupOfDistinct(ps: seq<Period>)
    requires NoDuplicates(ps)
    ensures Dedup(ps) == ps
  {
    if ps != [] {
      var n := |ps| - 1;
      assert NoDuplicates(ps[..n]);
      DedupOfDistinct(ps[..n]);
      assert ps[n] !in ps[..n];
      assert ps[..n] + [ps[n]] == ps;
    }
  }

  /** One step of the walk: the current date, then the walk from the next one. */
  lemma WalkStep(current: Date, end: Date, kind: PeriodKind, visited: seq<Date>, next: Date)
    requires current <= end && Step(kind, current) == Some(next)
    ensures Prepend(visited, Walk(current, end, kind)) == Prepend(visited + [current], Walk(next, end, kind))
  {
    match Walk(next, end, kind)
    case Err(e) =>
    case Ok(rest) => assert visited + ([current] + rest) == visited + [current] + rest;
  }

  /** A failing step fails the whole walk. */
  lemma WalkStepFails(current: Date, end: Date, kind: PeriodKind)
    requires current <= end && Step(kind, current).None?
    ensures Walk(current, end, kind).Err?
  {
  }

  lemma PeriodsOfSnoc(kind: PeriodKind, ds: seq<Date>, d: Date)
    ensures PeriodsOf(kind, ds + [d]) == PeriodsOf(kind, ds) + [PeriodOf(kind, d)]
  {
    assert (ds + [d])[..|ds|] == ds;
  }

  /** Deduplicating one more element adds it unless it was met before. */
  lemma DedupSnoc(ps: seq<Period>, p: Period)
    ensures Dedup(ps + [p]) == if p in Dedup(ps) then Dedup(ps) else Dedup(ps) + [p]
  {
    assert (ps + [p])[..|ps|] == ps;
  }

  /** First-seen order: later periods never reorder those already collected, they only follow them. */
  lemma {:induction false} DedupExtends(ps: seq<Period>, qs: seq<Period>)
    ensures |Dedup(ps)| <= |Dedup(ps + qs)| && Dedup(ps + qs)[..|Dedup(ps)|] == Dedup(ps)
    decreases |qs|
  {
    if qs != [] {
      var n := |qs| - 1;
      DedupExtends(ps, qs[..n]);
      assert ps + qs == (ps + qs[..n]) + [qs[n]];
      DedupSnoc(ps + qs[..n], qs[n]);
    } else {
      assert ps + qs == ps;
    }
  }

  /** The loop body of `generate_periods`: a period not seen before is appended and remembered. */
  method AddUnseen(period: Period, periods: seq<Period>, seenPeriods: set<Period>)
    returns (periods': seq<Period>, seenPeriods': set<Period>)
    requires seenPeriods == set p | p in periods
    ensures periods' == if period in periods then periods else periods + [period]
    ensures seenPeriods' == set p | p in periods'
  {
    periods', seenPeriods' := periods, seenPeriods;
    if period !in seenPeriods {
      periods' := periods + [period];
      seenPeriods' := seenPeriods + {period};
    }
  }

  /**
   * `generate_periods`: the distinct periods of the dates met stepping from `start` while not past
   * `end`, in first-seen order; an error when a monthly step lands on a day its month lacks.
   */
  method GeneratePeriods(start: Date, end: Date, kind: PeriodKind) returns (r: Result<seq<Period>, string>)
    ensures Walk(start, end, kind).Err? <==> r.Err?
    ensures Walk(start, end, kind).Ok? ==> r == Ok(Dedup(PeriodsOf(kind, Walk(start, end, kind).value)))
  {
    var periods: seq<Period> := [];
    var seenPeriods: set<Period> := {};
    ghost var visited: seq<Date> := [];
    var current := start;
    assert Prepend([], Walk(start, end, kind)) == Walk(start, end, kind) by {
      match Walk(start, end, kind)
      case Err(e) =>
      case Ok(rest) => assert [] + rest == rest;
    }
    while current <= end
      invariant Walk(start, end, kind) == Prepend(visited, Walk(current, end, kind))
      invariant periods == Dedup(PeriodsOf(kind, visited))
      invariant seenPeriods == set p | p in periods
      decreases end - current
    {
      var period := PeriodOf(kind, current);
      PeriodsOfSnoc(kind, visited, current);
      DedupSnoc(PeriodsOf(kind, visited), period);
      periods, seenPeriods := AddUnseen(period, periods, seenPeriods);
      var next := Step(kind, current);
      if next.None? {
        WalkStepFails(current, end, kind);
        return Err("day is out of range for month");
      }
      WalkStep(current, end, kind, visited, next.value);
      visited := visited + [current];
      current := next.value;
    }
    assert visited + [] == visited;
    r := Ok(periods);
  }

  /** Weekly stepping never fails and visits `start`, `start + 7`, ... up to `end`. */
  lemma {:induction false} WeeklyWalk(start: Date, end: Date)
    ensures Walk(start, end, Weekly).Ok?
    ensures var ds := Walk(start, end, Weekly).value;
      |ds| == (if end < start then 0 else (end - start) / 7 + 1)
      && forall i :: 0 <= i < |ds| ==> ds[i] == start + 7 * i
    decreases end - start
  {
    if start <= end {
      WeeklyWalk(start + 7, end);
      var rest := Walk(start + 7, end, Weekly).value;
      assert Walk(start, end, Weekly).value == [start] + rest;
    }
  }

  /** Dates a week or more apart lie in different weeks. */
  lemma WeeksApart(a: Date, b: Date)
    requires a + 7 <= b
    ensures GetWeekPeriod(a) != GetWeekPeriod(b)
  {
  }

  /** Weekly periods are all distinct, one per visited date, each the week of `start + 7 * i`. */
  lemma WeeklyPeriodsAreSteps(start: Date, end: Date)
    ensures Walk(start, end, Weekly).Ok?
    ensures var ps := Dedup(PeriodsOf(Weekly, Walk(start, end, Weekly).value));
      |ps| == (if end < start then 0 else (end - start) / 7 + 1)
      && forall i :: 0 <= i < |ps| ==> ps[i] == GetWeekPeriod(start + 7 * i)
  {
    WeeklyWalk(start, end);
    var ds := Walk(start, end, Weekly).value;
    var ps := PeriodsOf(Weekly, ds);
    forall i, j | 0 <= i < j < |ps| ensures ps[i] != ps[j] {
      assert ps[i] == GetWeekPeriod(start + 7 * i) && ps[j] == GetWeekPeriod(start + 7 * j);
      WeeksApart(start + 7 * i, start + 7 * j);
    }
    DedupOfDistinct(ps);
    assert |ps| == |ds|;
    forall i | 0 <= i < |ps| ensures ps[i] == GetWeekPeriod(start + 7 * i) {
      var d := ds[i];
      assert d == start + 7 * i;
      assert ps[i] == GetWeekPeriod(d);
    }
  }

  /** A monthly walk fails once it meets a date whose day is missing from the next month. */
  lemma MonthlyStepFails(current: Date, end: Date)
    requires current <= end && DayOf(current) > DaysInMonth(NextMonthYear(current), NextMonth(current))
    ensures Walk(current, end, Monthly).Err?
  {
    MonthlyStep(current);
  }

  /** A monthly walk from a day no later than the 28th never fails: every month has that day. */
  lemma {:induction false} MonthlyWalkFromEarlyDay(current: Date, end: Date)
    requires DayOf(current) <= 28
    ensures Walk(current, end, Monthly).Ok?
    decreases end - current
  {
    if current <= end {
      var next := Step(Monthly, current);
      MonthlyStep(current);
      assert next.Some?;
      MonthlyWalkFromEarlyDay(next.value, end);
    }
  }
}
