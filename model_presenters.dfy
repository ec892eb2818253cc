/**
 * Template filters of `templatetags/model_presenters.py`: `first_line`, which shortens a
 * multi-line text to its first line followed by an ellipsis, and `missing_months`, which pairs
 * the twelve month labels of a year with the groups of tracked habits regrouped by month.
 */
module ModelPresenters {
  import opened Wrappers
  import Strings
  import Calendar

  /** The characters `rstrip(".…")` removes. */
  const ELLIPSIS_CHARS: set<char> := {'.', '…'}

  /** `first_line`: a text with a newline becomes its first line, trimmed, plus an ellipsis. */
  function FirstLine(text: string): (r: string)
    ensures '\n' !in text ==> r == text
    ensures '\n' in text ==> |r| >= 1 && r[|r| - 1] == '…' && '\n' !in r[..|r| - 1]
  {
    var splitted := Strings.Split(text, '\n');
    if |splitted| > 1 then Strings.RStripChars(Strings.RStrip(splitted[0]), ELLIPSIS_CHARS) + "…"
    else text
  }

  /** The first line of a text: everything before its first newline. */
  function FirstLineOf(text: string): (line: string)
    ensures '\n' !in line
    ensures |line| <= |text| && text[..|line|] == line
    ensures |line| < |text| ==> text[|line|] == '\n'
  {
    var parts := Strings.Split(text, '\n');
    if |parts| == 1 then
      assert Strings.Join(parts, "\n") == parts[0];
      parts[0]
    else
      assert text == parts[0] + "\n" + Strings.Join(parts[1..], "\n");
      parts[0]
  }

  /**
   * For a multi-line text the part before the ellipsis starts the first line, does not end in
   * a dot or an ellipsis, and what it leaves of the first line is whitespace, dots and ellipses.
   */
  lemma FirstLineShortens(text: string)
    requires '\n' in text
    ensures var r := FirstLine(text); var body := r[..|r| - 1]; var line := FirstLineOf(text);
      |body| <= |line| && line[..|body|] == body
      && (body == [] || body[|body| - 1] !in ELLIPSIS_CHARS)
      && forall k :: |body| <= k < |line| ==> Strings.IsSpace(line[k]) || line[k] in ELLIPSIS_CHARS
  {
    var line := FirstLineOf(text);
    var trimmed := Strings.RStrip(line);
    Strings.TrimEndTrimsSpace(line, 0, |line|);
    var body := Strings.RStripChars(trimmed, ELLIPSIS_CHARS);
    assert FirstLine(text) == body + "…";
    assert FirstLine(text)[..|FirstLine(text)| - 1] == body;
    forall k | |body| <= k < |line| ensures Strings.IsSpace(line[k]) || line[k] in ELLIPSIS_CHARS {
      if k < |trimmed| {
        assert trimmed[k] == line[k];
      }
    }
  }

  // ---- `pair_iterators` inside `missing_months` ----

  /**
   * The pairs `pair_iterators` yields: each full item in order, with the current partial
   * group when its key equals the item (the partial side then moves on), else with `[]`.
   */
  function Pairs<K(==), V>(full: seq<K>, partial: seq<(K, seq<V>)>): seq<(K, seq<V>)> {
    if full == [] then []
    else if partial != [] && full[0] == partial[0].0 then [(full[0], partial[0].1)] + Pairs(full[1..], partial[1..])
    else [(full[0], [])] + Pairs(full[1..], partial)
  }

  /** The generator as a loop over two cursors. */
  method PairIterators<K(==), V>(full: seq<K>, partial: seq<(K, seq<V>)>) returns (r: seq<(K, seq<V>)>)
    ensures r == Pairs(full, partial)
  {
    r := [];
    var fi, pi := 0, 0;
    while fi < |full|
      invariant fi <= |full| && pi <= |partial|
      invariant r + Pairs(full[fi..], partial[pi..]) == Pairs(full, partial)
    {
      assert full[fi..][1..] == full[fi + 1..];
      if pi < |partial| && full[fi] == partial[pi].0 {
        assert partial[pi..][1..] == partial[pi + 1..];
        r := r + [(full[fi], partial[pi].1)];
        pi := pi + 1;
      } else {
        r := r + [(full[fi], [])];
      }
      fi := fi + 1;
    }
  }

  /** One pair per full item, in order; each value is `[]` or a group of the partial side. */
  lemma {:induction false} PairsShape<K, V>(full: seq<K>, partial: seq<(K, seq<V>)>)
    ensures |Pairs(full, partial)| == |full|
    ensures forall i :: 0 <= i < |full| ==> Pairs(full, partial)[i].0 == full[i]
    ensures forall i :: 0 <= i < |full| ==>
      Pairs(full, partial)[i].1 == [] || exists j :: 0 <= j < |partial| && Pairs(full, partial)[i].1 == partial[j].1
  {
    if full != [] {
      if partial != [] && full[0] == partial[0].0 {
        PairsShape(full[1..], partial[1..]);
        forall i | 1 <= i < |full| && Pairs(full, partial)[i].1 != []
          ensures exists j :: 0 <= j < |partial| && Pairs(full, partial)[i].1 == partial[j].1
        {
          var j :| 0 <= j < |partial[1..]| && Pairs(full[1..], partial[1..])[i - 1].1 == partial[1..][j].1;
          assert Pairs(full, partial)[i].1 == partial[j + 1].1;
        }
      } else {
        PairsShape(full[1..], partial);
      }
    }
  }

  /** A first group whose key is not among the full items blocks every group. */
  lemma {:induction false} UnmatchedGroupBlocks<K, V>(full: seq<K>, partial: seq<(K, seq<V>)>)
    requires partial != [] && partial[0].0 !in full
    ensures forall i :: 0 <= i < |Pairs(full, partial)| ==> Pairs(full, partial)[i].1 == []
  {
    if full != [] {
      assert partial[0].0 != full[0];
      assert forall k :: k in full[1..] ==> k in full;
      UnmatchedGroupBlocks(full[1..], partial);
    }
  }

  ghost predicate Distinct<K>(s: seq<K>) {
    forall i, j :: 0 <= i < j < |s| ==> s[i] != s[j]
  }

  /** The partial keys sit at the strictly increasing positions `idx` of the full items. */
  ghost predicate InOrderAt<K, V>(full: seq<K>, partial: seq<(K, seq<V>)>, idx: seq<nat>) {
    |idx| == |partial|
    && (forall j :: 0 <= j < |idx| ==> idx[j] < |full| && full[idx[j]] == partial[j].0)
    && (forall j, k :: 0 <= j < k < |idx| ==> idx[j] < idx[k])
  }

  /** Every position moved back by one. */
  function Shift(idx: seq<nat>): seq<nat>
    requires forall j :: 0 <= j < |idx| ==> idx[j] > 0
  {
    seq(|idx|, j requires 0 <= j < |idx| => idx[j] - 1)
  }

  /** What `InOrderGroupsPlaced` promises. */
  ghost predicate Placed<K, V>(full: seq<K>, partial: seq<(K, seq<V>)>, idx: seq<nat>)
    requires InOrderAt(full, partial, idx)
  {
    var r := Pairs(full, partial);
    |r| == |full|
    && (forall j :: 0 <= j < |idx| ==> r[idx[j]] == (full[idx[j]], partial[j].1))
    && (forall i :: 0 <= i < |full| && i !in idx ==> r[i].1 == [])
  }

  /**
   * With distinct full items and groups in their order, every group lands at its item and
   * every other item gets `[]`.
   */
  lemma {:induction false} InOrderGroupsPlaced<K, V>(full: seq<K>, partial: seq<(K, seq<V>)>, idx: seq<nat>)
    requires Distinct(full) && InOrderAt(full, partial, idx)
    ensures Placed(full, partial, idx)
  {
    if full == [] {
      assert |idx| == 0;
    } else if idx != [] && idx[0] == 0 {
      forall j | 0 <= j < |idx[1..]| ensures idx[1..][j] > 0 {
        assert idx[0] < idx[j + 1];
      }
      var idx' := Shift(idx[1..]);
      assert Distinct(full[1..]);
      assert InOrderAt(full[1..], partial[1..], idx');
      InOrderGroupsPlaced(full[1..], partial[1..], idx');
      MatchedStep(full, partial, idx, idx');
    } else {
      forall j | 0 <= j < |idx| ensures idx[j] > 0 {
        if j > 0 {
          assert idx[0] < idx[j];
        }
      }
      var idx' := Shift(idx);
      if partial != [] {
        assert full[idx[0]] == partial[0].0 && idx[0] != 0;
        assert full[0] != partial[0].0;
      }
      assert Distinct(full[1..]);
      assert InOrderAt(full[1..], partial, idx');
      InOrderGroupsPlaced(full[1..], partial, idx');
      SkippedStep(full, partial, idx, idx');
    }
  }

  /** The first item takes the first group. */
  lemma MatchedStep<K, V>(full: seq<K>, partial: seq<(K, seq<V>)>, idx: seq<nat>, idx': seq<nat>)
    requires InOrderAt(full, partial, idx) && full != [] && idx != [] && idx[0] == 0
    requires forall j :: 0 <= j < |idx[1..]| ==> idx[1..][j] > 0
    requires idx' == Shift(idx[1..]) && InOrderAt(full[1..], partial[1..], idx')
    requires Placed(full[1..], partial[1..], idx')
    ensures Placed(full, partial, idx)
  {
    var r := Pairs(full, partial);
    assert r == [(full[0], partial[0].1)] + Pairs(full[1..], partial[1..]);
    forall j | 0 <= j < |idx| ensures r[idx[j]] == (full[idx[j]], partial[j].1) {
      if j > 0 {
        assert idx[j] == idx'[j - 1] + 1;
      }
    }
    forall i | 0 <= i < |full| && i !in idx ensures r[i].1 == [] {
      assert i != 0;
      forall j | 0 <= j < |idx'| ensures idx'[j] != i - 1 {
        assert idx[j + 1] in idx;
      }
    }
  }

  /** The first item matches no group and gets `[]`. */
  lemma SkippedStep<K, V>(full: seq<K>, partial: seq<(K, seq<V>)>, idx: seq<nat>, idx': seq<nat>)
    requires InOrderAt(full, partial, idx) && full != []
    requires partial != [] ==> full[0] != partial[0].0
    requires forall j :: 0 <= j < |idx| ==> idx[j] > 0
    requires idx' == Shift(idx) && InOrderAt(full[1..], partial, idx')
    requires Placed(full[1..], partial, idx')
    ensures Placed(full, partial, idx)
  {
    var r := Pairs(full, partial);
    assert r == [(full[0], [])] + Pairs(full[1..], partial);
    forall j | 0 <= j < |idx| ensures r[idx[j]] == (full[idx[j]], partial[j].1) {
      assert idx[j] == idx'[j] + 1;
    }
    forall i | 0 < i < |full| && i !in idx ensures r[i].1 == [] {
      forall j | 0 <= j < |idx'| ensures idx'[j] != i - 1 {
        assert idx[j] in idx;
      }
    }
  }

  // ---- `missing_months` ----

  const MONTH_NAMES: seq<string> := ["January", "February", "March", "April", "May", "June", "July",
                                     "August", "September", "October", "November", "December"]

  /** `date_filter(date(year, month, 1), "F Y")`. */
  function MonthLabel(year: int, month: int): string
    requires 1 <= month <= 12
  {
    MONTH_NAMES[month - 1] + " " + Strings.IntToString(year)
  }

  /** The month number a label's name stands for, 0 for no month name. */
  function MonthNumber(name: string): (m: int)
    ensures 0 <= m <= 12
  {
    if name == "January" then 1 else if name == "February" then 2 else if name == "March" then 3
    else if name == "April" then 4 else if name == "May" then 5 else if name == "June" then 6
    else if name == "July" then 7 else if name == "August" then 8 else if name == "September" then 9
    else if name == "October" then 10 else if name == "November" then 11 else if name == "December" then 12
    else 0
  }

  /** Each month's name gives its number back. */
  lemma NameGivesNumber(m: int)
    requires 1 <= m <= 12
    ensures MonthNumber(MONTH_NAMES[m - 1]) == m
  {
    assert m == 1 || m == 2 || m == 3 || m == 4 || m == 5 || m == 6 || m == 7 || m == 8 || m == 9
      || m == 10 || m == 11 || m == 12;
  }

  /** The twelve labels of a year are distinct. */
  lemma MonthLabelsDistinct(year: int, m1: int, m2: int)
    requires 1 <= m1 < m2 <= 12
    ensures MonthLabel(year, m1) != MonthLabel(year, m2)
  {
    NameGivesNumber(m1);
    NameGivesNumber(m2);
    SameSuffixDistinct(MONTH_NAMES[m1 - 1], MONTH_NAMES[m2 - 1], " ", Strings.IntToString(year));
  }

  /** Distinct words followed by the same text stay distinct. */
  lemma SameSuffixDistinct(a: string, b: string, sep: string, s: string)
    requires a != b
    ensures a + sep + s != b + sep + s
  {
    var x, y := a + sep + s, b + sep + s;
    if |a| == |b| {
      assert x[..|a|] == a && y[..|b|] == b;
    } else {
      assert |x| != |y|;
    }
  }

  /** A group of habits tracked in one month: its "F Y" label and the days of its events. */
  type MonthGroup = (string, seq<Calendar.Date>)

  /**
   * `missing_months`: the year's twelve labels, taken from the first event of the first group,
   * paired with the groups; the IndexError of no group or an empty first group.
   */
  method MissingMonths(regrouped: seq<MonthGroup>) returns (r: Result<seq<MonthGroup>, string>)
    ensures r.Err? <==> regrouped == [] || regrouped[0].1 == []
    ensures r.Ok? ==> var year := Calendar.YearOf(regrouped[0].1[0]);
      |r.value| == 12 && forall i :: 0 <= i < 12 ==> r.value[i].0 == MonthLabel(year, i + 1)
    ensures r.Ok? ==> var year := Calendar.YearOf(regrouped[0].1[0]);
      r.value == Pairs(seq(12, i requires 0 <= i < 12 => MonthLabel(year, i + 1)), regrouped)
  {
    if regrouped == [] || regrouped[0].1 == [] {
      return Err("IndexError: list index out of range");
    }
    var year := Calendar.YearOf(regrouped[0].1[0]);
    var months := seq(12, i requires 0 <= i < 12 => MonthLabel(year, i + 1));
    var pairs := PairIterators(months, regrouped);
    PairsShape(months, regrouped);
    r := Ok(pairs);
  }

  /** The month labels of a year are distinct, so groups in month order all find their month. */
  lemma MonthsAreDistinct(year: int)
    ensures Distinct(seq(12, i requires 0 <= i < 12 => MonthLabel(year, i + 1)))
  {
    var months := seq(12, i requires 0 <= i < 12 => MonthLabel(year, i + 1));
    forall i, j | 0 <= i < j < 12 ensures months[i] != months[j] {
      MonthLabelsDistinct(year, i + 1, j + 1);
    }
  }
}
