/**
 * The habit calendar (`views_habit.py`): per day, the number of times a habit was tracked, or
 * -1 once any tracking of that day says the habit did not occur; and the `date` query
 * parameter parsed as `YYYY-MM-DD`. The tracked rows of one habit in the requested range, in
 * published order, are passed in; the clock is the `today` parameter.
 */
module ViewsHabit {
  import opened Wrappers
  import opened Calendar
  import Strings
  import Itertools
  import DateTimeUtils

  /** A `HabitTracked` row: the date of `published` and `occured`. */
  datatype Tracked = Tracked(day: Date, occured: bool)

  // ---- the per-day fold of `_habit_calendar` ----

  /** The number of rows on day `d`. */
  function Count(events: seq<Tracked>, d: Date): nat {
    if events == [] then 0
    else
      var n := |events| - 1;
      Count(events[..n], d) + (if events[n].day == d then 1 else 0)
  }

  /** Some row on day `d` says the habit did not occur. */
  predicate Missed(events: seq<Tracked>, d: Date) {
    if events == [] then false
    else
      var n := |events| - 1;
      Missed(events[..n], d) || events[n] == Tracked(d, false)
  }

  /** A day's calendar value: -1 after a miss, else the number of rows. */
  function DayValue(events: seq<Tracked>, d: Date): int {
    if Missed(events, d) then -1 else Count(events, d)
  }

  /**
   * `_habit_calendar`: a counter holding an entry for exactly the days with rows, -1 for a day
   * with a miss and the number of rows otherwise.
   */
  method HabitCounter(events: seq<Tracked>) returns (c: map<Date, int>)
    ensures forall d :: d in c <==> Count(events, d) > 0
    ensures forall d :: d in c ==> c[d] == DayValue(events, d)
  {
    c := map[];
    for i := 0 to |events|
      invariant forall d :: d in c <==> Count(events[..i], d) > 0
      invariant forall d :: d in c ==> c[d] == DayValue(events[..i], d)
    {
      var e := events[i];
      assert events[..i + 1] == events[..i] + [e];
      forall d ensures Count(events[..i + 1], d) == Count(events[..i], d) + (if e.day == d then 1 else 0)
        && (Missed(events[..i + 1], d) <==> Missed(events[..i], d) || e == Tracked(d, false))
      {
        Snoc(events[..i], e, d);
      }
      MissedHasRows(events[..i], e.day);
      if e.day in c && c[e.day] == -1 {
        continue;
      }
      if !e.occured {
        c := c[e.day := -1];
        continue;
      }
      c := c[e.day := (if e.day in c then c[e.day] else 0) + 1];
    }
    assert events[..|events|] == events;
  }

  /** One more row adds to its own day only. */
  lemma Snoc(events: seq<Tracked>, e: Tracked, d: Date)
    ensures Count(events + [e], d) == Count(events, d) + (if e.day == d then 1 else 0)
    ensures Missed(events + [e], d) <==> Missed(events, d) || e == Tracked(d, false)
  {
    assert (events + [e])[..|events|] == events;
  }

  /** A missed day has rows. */
  lemma {:induction false} MissedHasRows(events: seq<Tracked>, d: Date)
    ensures Missed(events, d) ==> Count(events, d) > 0
  {
    if events != [] {
      MissedHasRows(events[..|events| - 1], d);
    }
  }

  /** A day is missed exactly when one of its rows says the habit did not occur. */
  lemma {:induction false} MissedIff(events: seq<Tracked>, d: Date)
    ensures Missed(events, d) <==> exists i :: 0 <= i < |events| && events[i] == Tracked(d, false)
  {
    if events != [] {
      var n := |events| - 1;
      MissedIff(events[..n], d);
      if Missed(events[..n], d) {
        var i :| 0 <= i < n && events[..n][i] == Tracked(d, false);
        assert events[i] == Tracked(d, false);
      }
      if exists i :: 0 <= i < |events| && events[i] == Tracked(d, false) {
        var i :| 0 <= i < |events| && events[i] == Tracked(d, false);
        assert i < n ==> events[..n][i] == Tracked(d, false);
      }
    }
  }

  /** A day has no rows exactly when no row is dated that day. */
  lemma {:induction false} CountZeroIff(events: seq<Tracked>, d: Date)
    ensures Count(events, d) == 0 <==> forall i :: 0 <= i < |events| ==> events[i].day != d
  {
    if events != [] {
      var n := |events| - 1;
      CountZeroIff(events[..n], d);
      assert forall i :: 0 <= i < n ==> events[..n][i] == events[i];
    }
  }

  /** The per-day fold splits over a concatenation of row sequences. */
  lemma {:induction false} SplitsOverConcat(a: seq<Tracked>, b: seq<Tracked>, d: Date)
    ensures Count(a + b, d) == Count(a, d) + Count(b, d)
    ensures Missed(a + b, d) <==> Missed(a, d) || Missed(b, d)
  {
    if b != [] {
      var n := |b| - 1;
      assert (a + b)[..|a + b| - 1] == a + b[..n];
      SplitsOverConcat(a, b[..n], d);
    } else {
      assert a + b == a;
    }
  }

  /** The order of the rows does not matter: a miss wins whenever it comes. */
  lemma OrderDoesNotMatter(a: seq<Tracked>, b: seq<Tracked>, d: Date)
    ensures DayValue(a + b, d) == DayValue(b + a, d)
  {
    SplitsOverConcat(a, b, d);
    SplitsOverConcat(b, a, d);
  }

  // ---- `habit_calendar` ----

  /** The calendar value shown for day `d`: the counter's entry, 0 without rows. */
  function Shown(events: seq<Tracked>, d: Date): int {
    if Count(events, d) > 0 then DayValue(events, d) else 0
  }

  /** A shown value is -1 for a missed day, 0 for a day without rows, else the number of rows. */
  lemma ShownMeaning(events: seq<Tracked>, d: Date)
    ensures Shown(events, d) == -1 <==> exists i :: 0 <= i < |events| && events[i] == Tracked(d, false)
    ensures Shown(events, d) == 0 <==> forall i :: 0 <= i < |events| ==> events[i].day != d
    ensures Shown(events, d) > 0 ==> Shown(events, d) == Count(events, d)
  {
    MissedIff(events, d);
    CountZeroIff(events, d);
    if Missed(events, d) {
      var i :| 0 <= i < |events| && events[i] == Tracked(d, false);
      assert events[i].day == d;
    }
  }

  /** `r` holds one entry per day from `monday` to `end`, each with its shown value. */
  predicate IsCalendar(r: seq<DateTimeUtils.DayCount>, events: seq<Tracked>, monday: Date, end: Date) {
    |r| == (if end < monday then 0 else end - monday + 1)
    && forall i :: 0 <= i < |r| ==> r[i] == DateTimeUtils.DayCount(monday + i, Shown(events, monday + i))
  }

  /** `habit_calendar`: every day from the Monday on or before `start` through `end`. */
  method HabitCalendar(start: Date, end: Date, events: seq<Tracked>) returns (r: seq<DateTimeUtils.DayCount>)
    ensures IsCalendar(r, events, DateTimeUtils.AdjustStartDateToMonday(start), end)
  {
    var monday := DateTimeUtils.AdjustStartDateToMonday(start);
    var days := DateTimeUtils.DateRange(monday, end);
    var counter := HabitCounter(events);
    var items := Itertools.Itemize(days, counter, 0);
    r := seq(|items|, i requires 0 <= i < |items| => DateTimeUtils.DayCount(items[i].0, items[i].1));
  }

  /** The calendar opens on a Monday, at most six days before `start`. */
  lemma CalendarOpensOnMonday(r: seq<DateTimeUtils.DayCount>, events: seq<Tracked>, start: Date, end: Date)
    requires IsCalendar(r, events, DateTimeUtils.AdjustStartDateToMonday(start), end)
    requires r != []
    ensures Weekday(r[0].date) == 0 && start - 6 <= r[0].date <= start
    ensures r[|r| - 1].date == end
  {
  }

  // ---- `get_day_from_request` ----

  predicate IsDigit(c: char) {
    '0' <= c <= '9'
  }

  function DigitValue(c: char): nat
    requires IsDigit(c)
  {
    c as int - '0' as int
  }

  /** `%Y`: exactly four digits. */
  function YearToken(t: string): Option<int> {
    if |t| == 4 && IsDigit(t[0]) && IsDigit(t[1]) && IsDigit(t[2]) && IsDigit(t[3]) then
      Some(DigitValue(t[0]) * 1000 + DigitValue(t[1]) * 100 + DigitValue(t[2]) * 10 + DigitValue(t[3]))
    else None
  }

  /** `%m`: `10` to `12`, `01` to `09`, or `1` to `9`. */
  function MonthToken(t: string): Option<int> {
    if |t| == 2 && t[0] == '1' && '0' <= t[1] <= '2' then Some(10 + DigitValue(t[1]))
    else if |t| == 2 && t[0] == '0' && '1' <= t[1] <= '9' then Some(DigitValue(t[1]))
    else if |t| == 1 && '1' <= t[0] <= '9' then Some(DigitValue(t[0]))
    else None
  }

  /** `%d`: `30` or `31`, `10` to `29`, `01` to `09`, `1` to `9`, or a space and `1` to `9`. */
  function DayToken(t: string): Option<int> {
    if |t| == 2 && t[0] == '3' && '0' <= t[1] <= '1' then Some(30 + DigitValue(t[1]))
    else if |t| == 2 && '1' <= t[0] <= '2' && IsDigit(t[1]) then Some(DigitValue(t[0]) * 10 + DigitValue(t[1]))
    else if |t| == 2 && (t[0] == '0' || t[0] == ' ') && '1' <= t[1] <= '9' then Some(DigitValue(t[1]))
    else if |t| == 1 && '1' <= t[0] <= '9' then Some(DigitValue(t[0]))
    else None
  }

  const BAD_DATE := "time data does not match format '%Y-%m-%d'"
  const BAD_DAY := "day is out of range for month"

  /** The year, month and day tokens of `YYYY-MM-DD`, when `s` matches the format. */
  function Fields(s: string): Option<Ymd> {
    if |s| < 5 || s[4] != '-' || YearToken(s[..4]).None? then None
    else
      var parts := Strings.Split(s[5..], '-');
      if |parts| != 2 || MonthToken(parts[0]).None? || DayToken(parts[1]).None? then None
      else Some(Ymd(YearToken(s[..4]).value, MonthToken(parts[0]).value, DayToken(parts[1]).value))
  }

  /**
   * `datetime.strptime(s, '%Y-%m-%d').date()`: the ValueError of a string that does not match
   * the format or names no date.
   */
  function ParseIsoDay(s: string): (r: Result<Date, string>)
    ensures r.Ok? <==> Fields(s).Some? && Fields(s).value.year != 0 && Valid(Fields(s).value)
    ensures r.Ok? ==> FromOrdinal(r.value) == Fields(s).value && 1 <= YearOf(r.value) <= 9999
  {
    match Fields(s)
    case None => Err(BAD_DATE)
    case Some(ymd) =>
      if ymd.year == 0 then Err("year 0 is out of range")
      else match MakeDate(ymd.year, ymd.month, ymd.day)
        case None => Err(BAD_DAY)
        case Some(day) => Ok(day)
  }

  /** `get_day_from_request`: the parsed `date` query parameter when given, else today. */
  function GetDayFromRequest(date: Option<string>, today: Date): (r: Result<Date, string>)
    ensures date.None? ==> r == Ok(today)
    ensures date.Some? ==> r == ParseIsoDay(date.value)
  {
    match date
    case None => Ok(today)
    case Some(s) => ParseIsoDay(s)
  }

  // ---- round trip with `date.isoformat()` ----

  function Digit(n: nat): (c: char)
    requires n < 10
    ensures IsDigit(c) && DigitValue(c) == n
  {
    ('0' as int + n) as char
  }

  function Pad2(n: nat): (r: string)
    requires n < 100
    ensures |r| == 2 && IsDigit(r[0]) && IsDigit(r[1]) && DigitValue(r[0]) * 10 + DigitValue(r[1]) == n
  {
    [Digit(n / 10), Digit(n % 10)]
  }

  function Pad4(n: nat): (r: string)
    requires n < 10000
    ensures YearToken(r) == Some(n)
  {
    Pad2(n / 100) + Pad2(n % 100)
  }

  /** `date.isoformat()` for a date of years 1 to 9999. */
  function IsoFormat(ymd: Ymd): string
    requires 1 <= ymd.year <= 9999 && Valid(ymd)
  {
    Pad4(ymd.year) + "-" + Pad2(ymd.month) + "-" + Pad2(ymd.day)
  }

  lemma MonthPadded(m: int)
    requires 1 <= m <= 12
    ensures MonthToken(Pad2(m)) == Some(m)
  {
  }

  lemma DayPadded(d: int)
    requires 1 <= d <= 31
    ensures DayToken(Pad2(d)) == Some(d)
  {
  }

  /** Every date of years 1 to 9999 written as `YYYY-MM-DD` parses back to itself. */
  lemma IsoRoundTrip(ymd: Ymd)
    requires 1 <= ymd.year <= 9999 && Valid(ymd)
    ensures ParseIsoDay(IsoFormat(ymd)) == Ok(ToOrdinal(ymd))
  {
    var s := IsoFormat(ymd);
    var y, m, d := Pad4(ymd.year), Pad2(ymd.month), Pad2(ymd.day);
    assert s[..4] == y && s[4] == '-';
    assert s[5..] == m + "-" + d;
    MonthPadded(ymd.month);
    DayPadded(ymd.day);
    assert '-' !in m && '-' !in d;
    Strings.SplitJoin([m, d], '-');
    assert Strings.Join([m, d], "-") == m + "-" + d;
    FromToOrdinal(ymd);
  }
}
