/**
 * Word-count statistics (`utils/statistics.py`): the words of a text, the words written in a
 * year's events and plans, the key a statistic is stored under, and which yearly statistics a
 * refresh recomputes. The `Statistics` table is a map from key to value that the operations
 * take and return; event and plan rows are passed in.
 */
module WordStatistics {
  import opened Wrappers
  import Strings

  /** An attribute as the counter sees it: absent or `None`, a string, or a value of another type. */
  datatype TextValue = Missing | Text(s: string) | NotText(truthy: bool)

  /** Python truthiness of an attribute value. */
  predicate Truthy(v: TextValue) {
    match v
    case Missing => false
    case Text(s) => s != ""
    case NotText(b) => b
  }

  predicate NoSpace(s: string) {
    forall k :: 0 <= k < |s| ==> !Strings.IsSpace(s[k])
  }

  /** The first whitespace character at or after `i`, else `|s|`. */
  function SpaceFrom(s: string, i: nat): (j: nat)
    requires i <= |s|
    ensures i <= j <= |s|
    ensures j < |s| ==> Strings.IsSpace(s[j])
    ensures NoSpace(s[i..j])
    decreases |s| - i
  {
    if i == |s| || Strings.IsSpace(s[i]) then i
    else
      var j := SpaceFrom(s, i + 1);
      assert s[i..j] == [s[i]] + s[i + 1..j];
      j
  }

  /** `re.split(r'\s+', s)`: the pieces between maximal runs of whitespace. */
  function SplitSpace(s: string): (pieces: seq<string>)
    ensures |pieces| >= 1
    ensures forall i :: 0 <= i < |pieces| ==> NoSpace(pieces[i])
    decreases |s|
  {
    var i := SpaceFrom(s, 0);
    assert s[0..i] == s[..i];
    if i == |s| then [s]
    else [s[..i]] + SplitSpace(s[Strings.SkipSpace(s, i)..])
  }

  /** The non-empty pieces, in order. */
  function NonEmpty(pieces: seq<string>): (words: seq<string>)
    ensures |words| <= |pieces|
    ensures forall i :: 0 <= i < |words| ==> words[i] != "" && words[i] in pieces
  {
    if pieces == [] then []
    else (if pieces[0] != "" then [pieces[0]] else []) + NonEmpty(pieces[1..])
  }

  /** `count_words_in_text`: no words in a falsy or non-string value, else the non-empty pieces
      of the stripped text split at whitespace. */
  function CountWordsInText(v: TextValue): (n: nat)
    ensures !Truthy(v) || !v.Text? ==> n == 0
    ensures v.Text? ==> n == Words(v.s)
  {
    if !Truthy(v) || !v.Text? then 0
    else
      CountIsWords(v.s);
      |NonEmpty(SplitSpace(Strings.Strip(v.s)))|
  }

  /** Reference definition: the number of maximal runs of non-whitespace characters, counted by
      the positions where such a run starts (`afterSpace` says whether the text so far ended in
      whitespace or was empty). */
  function Starts(s: string, afterSpace: bool): nat {
    if s == [] then 0
    else (if afterSpace && !Strings.IsSpace(s[0]) then 1 else 0) + Starts(s[1..], Strings.IsSpace(s[0]))
  }

  function Words(s: string): nat {
    Starts(s, true)
  }

  /** Whether a text read after a state `afterSpace` ends in whitespace (or is still empty). */
  function EndsInSpace(s: string, afterSpace: bool): bool {
    if s == [] then afterSpace else Strings.IsSpace(s[|s| - 1])
  }

  /** Runs of a concatenation: those of the first part, then those starting in the second. */
  lemma {:induction false} StartsConcat(a: string, b: string, afterSpace: bool)
    ensures Starts(a + b, afterSpace) == Starts(a, afterSpace) + Starts(b, EndsInSpace(a, afterSpace))
  {
    if a == [] {
      assert a + b == b;
    } else {
      assert (a + b)[1..] == a[1..] + b;
      StartsConcat(a[1..], b, Strings.IsSpace(a[0]));
      assert EndsInSpace(a[1..], Strings.IsSpace(a[0])) == EndsInSpace(a, afterSpace);
    }
  }

  /** Whitespace starts no run. */
  lemma {:induction false} SpaceStartsNothing(a: string, afterSpace: bool)
    requires forall k :: 0 <= k < |a| ==> Strings.IsSpace(a[k])
    ensures Starts(a, afterSpace) == 0
    ensures EndsInSpace(a, afterSpace) == (a != [] || afterSpace)
  {
    if a != [] {
      SpaceStartsNothing(a[1..], true);
    }
  }

  /** A whitespace-free piece is one run, started here only if whitespace came before it. */
  lemma {:induction false} WordStartsOnce(w: string, afterSpace: bool)
    requires w != [] && NoSpace(w)
    ensures Starts(w, afterSpace) == if afterSpace then 1 else 0
    ensures !EndsInSpace(w, afterSpace)
  {
    if |w| > 1 {
      WordStartsOnce(w[1..], false);
    }
  }

  lemma NoSpaceWords(w: string)
    requires NoSpace(w)
    ensures Starts(w, true) == if w == [] then 0 else 1
  {
    if w != [] {
      WordStartsOnce(w, true);
    }
  }

  /** Each non-empty piece of the split is one run of the text. */
  lemma {:induction false} SplitCountsRuns(s: string)
    ensures |NonEmpty(SplitSpace(s))| == Words(s)
    decreases |s|
  {
    var i := SpaceFrom(s, 0);
    assert s[0..i] == s[..i];
    if i == |s| {
      assert SplitSpace(s) == [s];
      NoSpaceWords(s);
    } else {
      var j := Strings.SkipSpace(s, i);
      Strings.SkipSpaceSkipsSpace(s, i);
      var w, gap, rest := s[..i], s[i..j], s[j..];
      assert s == w + (gap + rest);
      assert ([w] + SplitSpace(rest))[1..] == SplitSpace(rest);
      SplitCountsRuns(rest);
      StartsConcat(w, gap + rest, true);
      NoSpaceWords(w);
      var after := EndsInSpace(w, true);
      StartsConcat(gap, rest, after);
      SpaceStartsNothing(gap, after);
    }
  }

  /** Surrounding whitespace starts no run, so stripping keeps the count. */
  lemma StripKeepsWords(s: string)
    ensures Words(Strings.Strip(s)) == Words(s)
  {
    Strings.StripSlice(s);
    var i := Strings.SkipSpace(s, 0);
    var r := Strings.Strip(s);
    var pre, post := s[..i], s[i + |r|..];
    assert s == pre + (r + post);
    StartsConcat(pre, r + post, true);
    SpaceStartsNothing(pre, true);
    StartsConcat(r, post, true);
    SpaceStartsNothing(post, EndsInSpace(r, true));
  }

  lemma CountIsWords(s: string)
    ensures |NonEmpty(SplitSpace(Strings.Strip(s)))| == Words(s)
  {
    SplitCountsRuns(Strings.Strip(s));
    StripKeepsWords(s);
  }

  /** Whitespace around a text does not change its count. */
  lemma SurroundingSpaceIgnored(pre: string, s: string, post: string)
    requires forall k :: 0 <= k < |pre| ==> Strings.IsSpace(pre[k])
    requires forall k :: 0 <= k < |post| ==> Strings.IsSpace(post[k])
    ensures CountWordsInText(Text(pre + s + post)) == CountWordsInText(Text(s))
  {
    StartsConcat(pre + s, post, true);
    StartsConcat(pre, s, true);
    SpaceStartsNothing(pre, true);
    SpaceStartsNothing(post, EndsInSpace(pre + s, true));
  }

  /** Two texts joined by whitespace hold the words of both. */
  lemma SeparatedTextsAdd(a: string, gap: string, b: string)
    requires gap != [] && forall k :: 0 <= k < |gap| ==> Strings.IsSpace(gap[k])
    ensures CountWordsInText(Text(a + gap + b)) == CountWordsInText(Text(a)) + CountWordsInText(Text(b))
  {
    StartsConcat(a + gap, b, true);
    StartsConcat(a, gap, true);
    SpaceStartsNothing(gap, EndsInSpace(a, true));
    assert EndsInSpace(a + gap, true);
  }

  // Events and plans

  /** The text attributes of an event, in the order they are read. */
  datatype TextField = Comment | Note | Situation | Interpretation | Approach | Description | Name | SuccessCriteria

  const FIELDS: seq<TextField> :=
    [Comment, Note, Situation, Interpretation, Approach, Description, Name, SuccessCriteria]

  /** A date's year. */
  type Year = y: int | 1 <= y <= 9999 witness 1

  /** An event row: the year it was published and the attributes its event type has. */
  datatype EventRow = EventRow(published: Year, attributes: map<TextField, TextValue>)

  /** A plan row: the year of its `pub_date`, its focus and its want. */
  datatype PlanRow = PlanRow(pubDate: Year, focus: TextValue, want: TextValue)

  /** `getattr(event, field, None)`. */
  function Attribute(e: EventRow, f: TextField): TextValue {
    if f in e.attributes then e.attributes[f] else Missing
  }

  /** `if year:` — the year filter applies only to a present, non-zero year. */
  predicate Filtered(year: Option<int>) {
    year.Some? && year.value != 0
  }

  predicate Selected(rowYear: Year, year: Option<int>) {
    !Filtered(year) || rowYear == year.value
  }

  /** The truthy attributes among `fs`, in order. */
  function TextFields(e: EventRow, fs: seq<TextField>): (texts: seq<TextValue>)
    ensures forall i :: 0 <= i < |texts| ==> Truthy(texts[i])
  {
    if fs == [] then []
    else
      var v := Attribute(e, fs[|fs| - 1]);
      TextFields(e, fs[..|fs| - 1]) + (if Truthy(v) then [v] else [])
  }

  function SumWords(texts: seq<TextValue>): nat {
    if texts == [] then 0 else SumWords(texts[..|texts| - 1]) + CountWordsInText(texts[|texts| - 1])
  }

  function EventWords(e: EventRow): nat {
    SumWords(TextFields(e, FIELDS))
  }

  function PlanWords(p: PlanRow): nat {
    (if Truthy(p.focus) then CountWordsInText(p.focus) else 0)
    + (if Truthy(p.want) then CountWordsInText(p.want) else 0)
  }

  function EventsWords(events: seq<EventRow>, year: Option<int>): nat {
    if events == [] then 0
    else
      var e := events[|events| - 1];
      EventsWords(events[..|events| - 1], year) + (if Selected(e.published, year) then EventWords(e) else 0)
  }

  function PlansWords(plans: seq<PlanRow>, year: Option<int>): nat {
    if plans == [] then 0
    else
      var p := plans[|plans| - 1];
      PlansWords(plans[..|plans| - 1], year) + (if Selected(p.pubDate, year) then PlanWords(p) else 0)
  }

  /** The words of the selected events' text attributes and the selected plans' focus and want. */
  function TotalWords(events: seq<EventRow>, plans: seq<PlanRow>, year: Option<int>): nat {
    EventsWords(events, year) + PlansWords(plans, year)
  }

  /** Leaving out the falsy attributes loses no words. */
  lemma {:induction false} FalsyFieldsCountNothing(e: EventRow, fs: seq<TextField>)
    ensures SumWords(TextFields(e, fs)) == AllFieldWords(e, fs)
  {
    if fs != [] {
      var v := Attribute(e, fs[|fs| - 1]);
      var front := TextFields(e, fs[..|fs| - 1]);
      FalsyFieldsCountNothing(e, fs[..|fs| - 1]);
      if Truthy(v) {
        assert (front + [v])[..|front|] == front;
      } else {
        assert front + [] == front;
      }
    }
  }

  function AllFieldWords(e: EventRow, fs: seq<TextField>): nat {
    if fs == [] then 0 else AllFieldWords(e, fs[..|fs| - 1]) + CountWordsInText(Attribute(e, fs[|fs| - 1]))
  }

  function EventsOf(events: seq<EventRow>, y: Year): seq<EventRow> {
    if events == [] then []
    else
      var e := events[|events| - 1];
      EventsOf(events[..|events| - 1], y) + (if e.published == y then [e] else [])
  }

  function PlansOf(plans: seq<PlanRow>, y: Year): seq<PlanRow> {
    if plans == [] then []
    else
      var p := plans[|plans| - 1];
      PlansOf(plans[..|plans| - 1], y) + (if p.pubDate == y then [p] else [])
  }

  /** Counting for a year is counting, unfiltered, only the rows of that year. */
  lemma YearCountsItsOwnRows(events: seq<EventRow>, plans: seq<PlanRow>, y: Year)
    ensures TotalWords(events, plans, Some(y)) == TotalWords(EventsOf(events, y), PlansOf(plans, y), None)
  {
    EventsOfYear(events, y);
    PlansOfYear(plans, y);
  }

  lemma {:induction false} EventsOfYear(events: seq<EventRow>, y: Year)
    ensures EventsWords(events, Some(y)) == EventsWords(EventsOf(events, y), None)
  {
    if events != [] {
      var e := events[|events| - 1];
      var front := EventsOf(events[..|events| - 1], y);
      EventsOfYear(events[..|events| - 1], y);
      if e.published == y {
        assert (front + [e])[..|front|] == front;
      } else {
        assert front + [] == front;
      }
    }
  }

  lemma {:induction false} PlansOfYear(plans: seq<PlanRow>, y: Year)
    ensures PlansWords(plans, Some(y)) == PlansWords(PlansOf(plans, y), None)
  {
    if plans != [] {
      var p := plans[|plans| - 1];
      var front := PlansOf(plans[..|plans| - 1], y);
      PlansOfYear(plans[..|plans| - 1], y);
      if p.pubDate == y {
        assert (front + [p])[..|front|] == front;
      } else {
        assert front + [] == front;
      }
    }
  }

  /** The word count of more rows is the sum of the counts of each part. */
  lemma {:induction false} EventsWordsAppend(a: seq<EventRow>, b: seq<EventRow>, year: Option<int>)
    ensures EventsWords(a + b, year) == EventsWords(a, year) + EventsWords(b, year)
    decreases |b|
  {
    if b == [] {
      assert a + b == a;
    } else {
      assert (a + b)[..|a + b| - 1] == a + b[..|b| - 1];
      EventsWordsAppend(a, b[..|b| - 1], year);
    }
  }

  /** The words of one event: its truthy text attributes, gathered first and then counted. */
  method EventWordCount(e: EventRow) returns (n: nat)
    ensures n == EventWords(e)
  {
    var texts := GatherTexts(e);
    n := SumTextWords(texts);
  }

  /** The `filter` and `reduce` over the text fields: the truthy attributes in field order. */
  method GatherTexts(e: EventRow) returns (texts: seq<TextValue>)
    ensures texts == TextFields(e, FIELDS)
  {
    var fields := FIELDS;
    texts := [];
    for i := 0 to |fields|
      invariant texts == TextFields(e, fields[..i])
    {
      assert fields[..i + 1][..i] == fields[..i];
      var v := Attribute(e, fields[i]);
      if Truthy(v) {
        texts := texts + [v];
      }
    }
    assert fields[..|fields|] == fields;
  }

  /** The loop adding up the words of each gathered text. */
  method SumTextWords(texts: seq<TextValue>) returns (n: nat)
    ensures n == SumWords(texts)
  {
    n := 0;
    for i := 0 to |texts|
      invariant n == SumWords(texts[..i])
    {
      assert texts[..i + 1][..i] == texts[..i];
      n := n + CountWordsInText(texts[i]);
    }
    assert texts[..|texts|] == texts;
  }

  /** `calculate_total_word_count`: the words of the events and plans of `year`, or of all of them. */
  method CalculateTotalWordCount(events: seq<EventRow>, plans: seq<PlanRow>, year: Option<int>)
    returns (total: nat)
    ensures total == TotalWords(events, plans, year)
  {
    total := 0;
    for i := 0 to |events|
      invariant total == EventsWords(events[..i], year)
    {
      assert events[..i + 1][..i] == events[..i];
      if Selected(events[i].published, year) {
        var n := EventWordCount(events[i]);
        total := total + n;
      }
    }
    assert events[..|events|] == events;
    for i := 0 to |plans|
      invariant total == EventsWords(events, year) + PlansWords(plans[..i], year)
    {
      assert plans[..i + 1][..i] == plans[..i];
      var p := plans[i];
      if Selected(p.pubDate, year) {
        if Truthy(p.focus) {
          total := total + CountWordsInText(p.focus);
        }
        if Truthy(p.want) {
          total := total + CountWordsInText(p.want);
        }
      }
    }
    assert plans[..|plans|] == plans;
  }

  // Statistic keys and the Statistics table

  const TOTAL_KEY := "total_word_count"
  const YEAR_KEY_PREFIX := "total_word_count_"

  /** The key of a year's statistic, or of the overall one when no year filter applies. */
  function Key(year: Option<int>): (key: string)
    ensures !Filtered(year) <==> key == TOTAL_KEY
  {
    if Filtered(year) then YEAR_KEY_PREFIX + Strings.IntToString(year.value) else TOTAL_KEY
  }

  /** Different years, and a year and the overall total, never share a key. */
  lemma KeyInjective(a: Option<int>, b: Option<int>)
    requires Key(a) == Key(b)
    ensures Filtered(a) == Filtered(b)
    ensures Filtered(a) ==> a.value == b.value
  {
    if Filtered(a) && Filtered(b) {
      var k := Key(a);
      assert k[|YEAR_KEY_PREFIX|..] == Strings.IntToString(a.value);
      assert Key(b)[|YEAR_KEY_PREFIX|..] == Strings.IntToString(b.value);
      Strings.IntToStringInjective(a.value, b.value);
    }
  }

  /** `update_word_count_statistic`: counts and stores the count under the year's key. */
  method UpdateWordCountStatistic(events: seq<EventRow>, plans: seq<PlanRow>, stats: map<string, nat>,
                                  year: Option<int>)
    returns (total: nat, stats': map<string, nat>)
    ensures total == TotalWords(events, plans, year)
    ensures stats' == stats[Key(year) := total]
  {
    total := CalculateTotalWordCount(events, plans, year);
    var key := if Filtered(year) then YEAR_KEY_PREFIX + Strings.IntToString(year.value) else TOTAL_KEY;
    stats' := stats[key := total];
  }

  /** `get_word_count_statistic` without the update time: the stored value, if any. */
  function GetWordCountStatistic(stats: map<string, nat>, year: Option<int>): (value: Option<nat>)
    ensures value.Some? <==> Key(year) in stats
    ensures value.Some? ==> value.value == stats[Key(year)]
  {
    var key := if Filtered(year) then YEAR_KEY_PREFIX + Strings.IntToString(year.value) else TOTAL_KEY;
    if key in stats then Some(stats[key]) else None
  }

  /** Storing a year's count is seen by that year and by no other. */
  lemma GetAfterUpdate(stats: map<string, nat>, year: Option<int>, other: Option<int>, total: nat)
    ensures GetWordCountStatistic(stats[Key(year) := total], year) == Some(total)
    ensures Filtered(other) != Filtered(year) || (Filtered(other) && other.value != year.value) ==>
      GetWordCountStatistic(stats[Key(year) := total], other) == GetWordCountStatistic(stats, other)
  {
    if Key(other) == Key(year) {
      KeyInjective(other, year);
    }
  }

  /** `get_all_years_in_database`: the years events were published in. */
  function Years(events: seq<EventRow>): set<Year> {
    set e | e in events :: e.published
  }

  function YearKeys(years: set<Year>): set<string> {
    set y | y in years :: Key(Some(y))
  }

  /** What `update_all_word_count_statistics` returns: the overall count and one per year. */
  datatype WordCounts = WordCounts(total: nat, years: map<Year, nat>)

  /** The current and previous year are always recounted; another year only when no value is stored. */
  predicate Recounted(y: Year, currentYear: int, stats: map<string, nat>) {
    y == currentYear || y == currentYear - 1 || Key(Some(y)) !in stats
  }

  /** The outcome for one year: recounted and stored, or the stored value reported and kept. */
  predicate YearReported(y: Year, events: seq<EventRow>, plans: seq<PlanRow>, currentYear: int,
                         stats: map<string, nat>, years: map<Year, nat>, stats': map<string, nat>)
  {
    var key := Key(Some(y));
    y in years && key in stats' &&
    if Recounted(y, currentYear, stats) then
      years[y] == TotalWords(events, plans, Some(y)) && stats'[key] == years[y]
    else
      years[y] == stats[key] && stats'[key] == stats[key]
  }

  /** A key no refresh of `years` touches keeps its value. */
  predicate KeptOutside(years: set<Year>, stats: map<string, nat>, stats': map<string, nat>) {
    stats'.Keys == stats.Keys + {TOTAL_KEY} + YearKeys(years)
    && forall k :: k in stats && k != TOTAL_KEY && k !in YearKeys(years) ==> stats'[k] == stats[k]
  }

  /** The smallest element of a non-empty set of years. */
  ghost function Earliest(years: set<Year>): (y: Year)
    requires years != {}
    ensures y in years && forall z :: z in years ==> y <= z
    decreases |years|
  {
    var x :| x in years;
    var rest := years - {x};
    if rest == {} then
      assert forall z :: z in years ==> z in rest || z == x;
      x
    else
      var m := Earliest(rest);
      assert forall z :: z in years ==> z == x || z in rest;
      if x < m then x else m
  }

  /** The next year of the ascending walk. */
  method PickEarliest(remaining: set<Year>) returns (y: Year)
    requires remaining != {}
    ensures y in remaining && forall z :: z in remaining ==> y <= z
  {
    ghost var earliest := Earliest(remaining);
    y :| y in remaining && forall z :: z in remaining ==> y <= z;
  }

  /** `update_all_word_count_statistics`, with the current year as a parameter: recounts the
      overall total, then goes through the event years in ascending order. */
  method UpdateAllWordCountStatistics(events: seq<EventRow>, plans: seq<PlanRow>, stats: map<string, nat>,
                                      currentYear: int)
    returns (results: WordCounts, stats': map<string, nat>)
    ensures results.total == TotalWords(events, plans, None)
    ensures TOTAL_KEY in stats' && stats'[TOTAL_KEY] == results.total
    ensures results.years.Keys == Years(events)
    ensures forall y :: y in Years(events) ==> YearReported(y, events, plans, currentYear, stats, results.years, stats')
    ensures KeptOutside(Years(events), stats, stats')
  {
    var total, counted := UpdateWordCountStatistic(events, plans, stats, None);
    var years;
    years, stats' := RefreshYears(events, plans, stats, currentYear, counted);
    results := WordCounts(total, years);
  }

  /** The loop over the event years, in ascending order, after the overall total is stored. */
  method RefreshYears(events: seq<EventRow>, plans: seq<PlanRow>, stats: map<string, nat>, currentYear: int,
                      counted: map<string, nat>)
    returns (years: map<Year, nat>, stats': map<string, nat>)
    requires TOTAL_KEY in counted && KeptOutside({}, stats, counted)
    ensures years.Keys == Years(events)
    ensures TOTAL_KEY in stats' && stats'[TOTAL_KEY] == counted[TOTAL_KEY]
    ensures forall y :: y in Years(events) ==> YearReported(y, events, plans, currentYear, stats, years, stats')
    ensures KeptOutside(Years(events), stats, stats')
  {
    years, stats' := map[], counted;
    var all := Years(events);
    var remaining := all;
    ghost var done: set<Year> := {};
    while remaining != {}
      invariant remaining <= all && done == all - remaining
      invariant years.Keys == done
      invariant TOTAL_KEY in stats' && stats'[TOTAL_KEY] == counted[TOTAL_KEY]
      invariant forall y :: y in done ==> YearReported(y, events, plans, currentYear, stats, years, stats')
      invariant KeptOutside(done, stats, stats')
      decreases remaining
    {
      var y := PickEarliest(remaining);
      years, stats' := RefreshYear(events, plans, stats, currentYear, y, done, years, stats');
      assert all - (remaining - {y}) == done + {y};
      remaining := remaining - {y};
      done := done + {y};
    }
  }

  /** One step of the loop over years: brings year `y` into the results and the table. */
  method RefreshYear(events: seq<EventRow>, plans: seq<PlanRow>, stats: map<string, nat>, currentYear: int,
                     y: Year, ghost done: set<Year>, years: map<Year, nat>, stats0: map<string, nat>)
    returns (years': map<Year, nat>, stats': map<string, nat>)
    requires y !in done && years.Keys == done
    requires TOTAL_KEY in stats0
    requires forall z :: z in done ==> YearReported(z, events, plans, currentYear, stats, years, stats0)
    requires KeptOutside(done, stats, stats0)
    ensures years'.Keys == done + {y}
    ensures TOTAL_KEY in stats' && stats'[TOTAL_KEY] == stats0[TOTAL_KEY]
    ensures forall z :: z in done + {y} ==> YearReported(z, events, plans, currentYear, stats, years', stats')
    ensures KeptOutside(done + {y}, stats, stats')
  {
    var key := YEAR_KEY_PREFIX + Strings.IntToString(y);
    assert key == Key(Some(y));
    KeyOfNewYear(y, done);
    if y == currentYear || y == currentYear - 1 || key !in stats0 {
      var n;
      n, stats' := UpdateWordCountStatistic(events, plans, stats0, Some(y));
      years' := years[y := n];
    } else {
      years' := years[y := stats0[key]];
      stats' := stats0;
    }
    forall z | z in done ensures YearReported(z, events, plans, currentYear, stats, years', stats') {
      KeyOfNewYear(y, {z});
    }
  }

  /** A year not yet refreshed has a key of its own. */
  lemma KeyOfNewYear(y: Year, done: set<Year>)
    requires y !in done
    ensures Key(Some(y)) != TOTAL_KEY && Key(Some(y)) !in YearKeys(done)
  {
    forall z | z in done ensures Key(Some(z)) != Key(Some(y)) {
      if Key(Some(z)) == Key(Some(y)) {
        KeyInjective(Some(z), Some(y));
      }
    }
  }
}
