/**
 * Reflection items from journal entries (`services/journalling/reflection_extraction.py`): lines
 * marked `[x] `, `[~] ` or `[^] ` near their start become items of the good, better and best
 * fields of the reflection for the entry's thread and date, appended to what the fields hold.
 */
module ReflectionExtraction {
  import opened Wrappers
  import opened Strings
  import Calendar

  /** The three reflection fields, in the order of their prefixes. */
  datatype ReflectionField = Good | Better | Best

  const REFLECTION_FIELDS: seq<ReflectionField> := [Good, Better, Best]

  /** `REFLECTION_LINE_PREFIXES`: the marker of each field. */
  function Prefix(f: ReflectionField): string {
    match f
    case Good => "[x] "
    case Better => "[~] "
    case Best => "[^] "
  }

  /** The first twelve characters of a line, `line[:12]`. */
  function Head(line: string): (h: string)
    ensures |h| <= 12 && |h| <= |line| && h == line[..|h|]
    ensures |h| < 12 ==> h == line
  {
    if |line| <= 12 then line else line[..12]
  }

  /** `prefix in line[:12]`. */
  predicate Marked(line: string, f: ReflectionField) {
    Contains(Head(line), Prefix(f))
  }

  /** The entry one prefix contributes for one line: the line without the prefix's first occurrence. */
  function EntryFor(line: string, f: ReflectionField): seq<(ReflectionField, string)> {
    if Marked(line, f) then [(f, RemoveFirst(line, Prefix(f)))] else []
  }

  /** The entries of one line, one per prefix found near its start, in prefix order. */
  function LineEntries(line: string): seq<(ReflectionField, string)> {
    EntryFor(line, Good) + EntryFor(line, Better) + EntryFor(line, Best)
  }

  /** The entries of a list of lines, line by line. */
  function LinesEntries(lines: seq<string>): (r: seq<(ReflectionField, string)>)
    ensures |r| <= 3 * |lines|
  {
    if lines == [] then [] else LineEntries(lines[0]) + LinesEntries(lines[1..])
  }

  /** `extract_reflection_lines`: the entries of the note's lines, split at `\n`. */
  function ExtractReflectionLines(note: string): seq<(ReflectionField, string)> {
    LinesEntries(Split(note, '\n'))
  }

  /** The rank of a field in prefix order. */
  function Rank(f: ReflectionField): nat {
    match f
    case Good => 0
    case Better => 1
    case Best => 2
  }

  /**
   * A line yields an entry for a field exactly when the field's prefix occurs in its first twelve
   * characters, the entry holding the line without that prefix's first occurrence.
   */
  lemma LineEntriesSpec(line: string, f: ReflectionField, x: string)
    ensures (f, x) in LineEntries(line) <==> Marked(line, f) && x == RemoveFirst(line, Prefix(f))
  {
    var g, b, s := EntryFor(line, Good), EntryFor(line, Better), EntryFor(line, Best);
    assert LineEntries(line) == g + b + s;
    assert (f, x) in g + b + s <==> (f, x) in g || (f, x) in b || (f, x) in s;
  }

  /** The entries of a line come in prefix order, at most one per field. */
  lemma LineEntriesInPrefixOrder(line: string)
    ensures |LineEntries(line)| <= 3
    ensures forall i :: 0 <= i < |LineEntries(line)| - 1 ==> Rank(LineEntries(line)[i].0) < Rank(LineEntries(line)[i + 1].0)
  {
    var g, b, s := EntryFor(line, Good), EntryFor(line, Better), EntryFor(line, Best);
    var r := g + b + s;
    assert LineEntries(line) == r;
    assert forall i :: 0 <= i < |r| ==> r[i] == if i < |g| then g[i] else if i < |g| + |b| then b[i - |g|] else s[i - |g| - |b|];
  }

  /** A line holding all three prefixes near its start yields three entries, good first. */
  lemma SeveralPrefixesSeveralEntries(line: string)
    requires Marked(line, Good) && Marked(line, Better) && Marked(line, Best)
    ensures |LineEntries(line)| == 3
    ensures LineEntries(line)[0].0 == Good && LineEntries(line)[1].0 == Better && LineEntries(line)[2].0 == Best
  {
  }

  /** The occurrence that is removed is the first one in the line, and it lies within the first twelve characters. */
  lemma RemovedOccurrenceIsInHead(line: string, f: ReflectionField)
    requires Marked(line, f)
    ensures Find(line, Prefix(f)).Some?
    ensures Find(line, Prefix(f)).value + |Prefix(f)| <= 12
    ensures RemoveFirst(line, Prefix(f)) ==
      line[..Find(line, Prefix(f)).value] + line[Find(line, Prefix(f)).value + |Prefix(f)|..]
  {
    var p := Prefix(f);
    var h := Head(line);
    var j := Find(h, p).value;
    assert OccursAt(h, p, j);
    assert h[j..j + |p|] == line[j..j + |p|];
    assert OccursAt(line, p, j);
  }

  /** Entries of consecutive lines come line by line: the order of the lines is kept. */
  lemma {:induction false} LinesEntriesAppend(a: seq<string>, b: seq<string>)
    ensures LinesEntries(a + b) == LinesEntries(a) + LinesEntries(b)
  {
    if a != [] {
      assert (a + b)[0] == a[0] && (a + b)[1..] == a[1..] + b;
      LinesEntriesAppend(a[1..], b);
    } else {
      assert a + b == b;
    }
  }

  /** Every entry comes from a line that carries its prefix near its start. */
  lemma {:induction false} EntriesComeFromLines(lines: seq<string>, e: (ReflectionField, string))
    requires e in LinesEntries(lines)
    ensures exists i :: 0 <= i < |lines| && Marked(lines[i], e.0) && e.1 == RemoveFirst(lines[i], Prefix(e.0))
  {
    LineEntriesSpec(lines[0], e.0, e.1);
    if e !in LineEntries(lines[0]) {
      EntriesComeFromLines(lines[1..], e);
      var i :| 0 <= i < |lines[1..]| && Marked(lines[1..][i], e.0) && e.1 == RemoveFirst(lines[1..][i], Prefix(e.0));
      assert lines[1..][i] == lines[i + 1];
    } else {
      assert e == (e.0, e.1);
    }
  }

  /** A note without the character `[` yields no entries. */
  lemma NoBracketNoEntries(note: string)
    requires '[' !in note
    ensures ExtractReflectionLines(note) == []
  {
    var lines := Split(note, '\n');
    SplitPartsInside(note, '\n');
    NoBracketLines(lines);
  }

  lemma {:induction false} NoBracketLines(lines: seq<string>)
    requires forall i :: 0 <= i < |lines| ==> '[' !in lines[i]
    ensures LinesEntries(lines) == []
  {
    if lines != [] {
      MarkedHasBracket(lines[0]);
      assert forall i :: 0 <= i < |lines| - 1 ==> lines[1..][i] == lines[i + 1];
      NoBracketLines(lines[1..]);
    }
  }

  /** Every prefix starts with `[`, so a marked line holds one. */
  lemma MarkedHasBracket(line: string)
    ensures forall f :: Marked(line, f) ==> '[' in line
  {
    forall f | Marked(line, f) ensures '[' in line {
      var h := Head(line);
      var j := Find(h, Prefix(f)).value;
      assert h[j..j + |Prefix(f)|] == Prefix(f);
      assert h[j] == h[j..j + |Prefix(f)|][0] == Prefix(f)[0] == '[';
      assert line[j] == h[j];
    }
  }

  /** The characters of the pieces of `s.split(sep)` are characters of `s`. */
  lemma {:induction false} SplitPartsInside(s: string, sep: char)
    ensures forall i, c :: 0 <= i < |Split(s, sep)| && c in Split(s, sep)[i] ==> c in s
  {
    if s != [] {
      SplitPartsInside(s[1..], sep);
      assert forall c :: c in s[1..] ==> c in s;
    }
  }

  /** `[line for field, line in reflection_lines if field == f]`. */
  function ItemsFor(entries: seq<(ReflectionField, string)>, f: ReflectionField): (r: seq<string>)
    ensures |r| <= |entries|
  {
    if entries == [] then []
    else (if entries[0].0 == f then [entries[0].1] else []) + ItemsFor(entries[1..], f)
  }

  /** A field's items are exactly the texts of its own entries, in order. */
  lemma {:induction false} ItemsForOwnField(entries: seq<(ReflectionField, string)>, f: ReflectionField)
    ensures forall x :: x in ItemsFor(entries, f) <==> (f, x) in entries
  {
    if entries != [] {
      ItemsForOwnField(entries[1..], f);
      assert entries == [entries[0]] + entries[1..];
    }
  }

  /**
   * `append_lines_to_value`: an empty or missing value becomes the lines joined by newlines; no
   * lines leave the value as it is; otherwise the lines go after the value on new lines and the
   * whole is stripped.
   */
  function AppendLinesToValue(value: Option<string>, lines: seq<string>): (r: string)
    ensures value.None? || value == Some("") ==> r == Join(lines, "\n")
    ensures value.Some? && value.value != "" && lines == [] ==> r == value.value
  {
    if value.None? || value.value == "" then Join(lines, "\n")
    else if lines == [] then value.value
    else Strip(value.value + "\n" + Join(lines, "\n"))
  }

  /** The join of stripped non-empty lines is stripped and non-empty. */
  lemma {:induction false} JoinStripped(lines: seq<string>)
    requires lines != [] && forall i :: 0 <= i < |lines| ==> lines[i] != "" && IsStripped(lines[i])
    ensures Join(lines, "\n") != "" && IsStripped(Join(lines, "\n"))
  {
    if |lines| > 1 {
      assert forall i :: 0 <= i < |lines| - 1 ==> lines[1..][i] == lines[i + 1];
      JoinStripped(lines[1..]);
      var rest := Join(lines[1..], "\n");
      assert Join(lines, "\n") == lines[0] + "\n" + rest;
    }
  }

  /**
   * Appending stripped lines to a stripped non-empty value keeps the value in front and adds the
   * lines after a newline, with nothing lost to the strip.
   */
  lemma AppendKeepsValue(value: string, lines: seq<string>)
    requires value != "" && IsStripped(value)
    requires lines != [] && forall i :: 0 <= i < |lines| ==> lines[i] != "" && IsStripped(lines[i])
    ensures AppendLinesToValue(Some(value), lines) == value + "\n" + Join(lines, "\n")
  {
    JoinStripped(lines);
    var j := Join(lines, "\n");
    var s := value + "\n" + j;
    assert s[0] == value[0];
    assert s[|s| - 1] == j[|j| - 1];
    assert IsStripped(s);
    StrippedIsFixed(s);
    assert AppendLinesToValue(Some(value), lines) == Strip(s);
  }

  /** Two entries appended one after the other end up on two lines, the first one first. */
  lemma AppendTwice(a: string, b: string)
    requires a != "" && IsStripped(a) && b != "" && IsStripped(b)
    ensures AppendLinesToValue(Some(AppendLinesToValue(None, [a])), [b]) == a + "\n" + b
  {
    AppendKeepsValue(a, [b]);
  }

  /** A reflection's three text fields. */
  datatype Reflection = Reflection(good: Option<string>, better: Option<string>, best: Option<string>)

  function Get(r: Reflection, f: ReflectionField): Option<string> {
    match f
    case Good => r.good
    case Better => r.better
    case Best => r.best
  }

  /** `setattr(reflection, f, v)`. */
  function Set(r: Reflection, f: ReflectionField, v: string): (r': Reflection)
    ensures Get(r', f) == Some(v)
    ensures forall g :: g != f ==> Get(r', g) == Get(r, g)
  {
    match f
    case Good => r.(good := Some(v))
    case Better => r.(better := Some(v))
    case Best => r.(best := Some(v))
  }

  /**
   * The date a journal entry contributes to: the entry's own date, the Sunday of its week for the
   * `Weekly` thread, the last day of its month for the `big-picture` thread.
   */
  method SnapPublicationDate(thread: string, published: Calendar.Date) returns (pubDate: Calendar.Date)
    ensures thread == "Weekly" ==>
      Calendar.Weekday(pubDate) == 6 && published <= pubDate <= published + 6
    ensures thread == "big-picture" ==>
      Calendar.YearOf(pubDate) == Calendar.YearOf(published) && Calendar.MonthOf(pubDate) == Calendar.MonthOf(published)
      && Calendar.DayOf(pubDate) == Calendar.DaysInMonth(Calendar.YearOf(published), Calendar.MonthOf(published))
    ensures thread != "Weekly" && thread != "big-picture" ==> pubDate == published
  {
    pubDate := published;
    if thread == "Weekly" {
      pubDate := pubDate + (6 - Calendar.Weekday(pubDate));
    }
    if thread == "big-picture" {
      var ymd := Calendar.FromOrdinal(pubDate);
      Calendar.MonthEnd(pubDate);
      var last := Calendar.MakeDate(ymd.year, ymd.month, Calendar.DaysInMonth(ymd.year, ymd.month));
      pubDate := last.value;
    }
  }

  /** The stored reflection of a thread and date, or a new one with empty fields. */
  function Stored(rows: map<(Calendar.Date, string), Reflection>, key: (Calendar.Date, string)): Reflection {
    if key in rows then rows[key] else Reflection(None, None, None)
  }

  /**
   * The field loop of `add_reflection_items`: every field gets its own items appended, in the
   * order good, better, best.
   */
  method UpdateFields(reflection: Reflection, entries: seq<(ReflectionField, string)>) returns (r: Reflection)
    ensures forall f :: Get(r, f) == Some(AppendLinesToValue(Get(reflection, f), ItemsFor(entries, f)))
  {
    r := reflection;
    var i := 0;
    while i < |REFLECTION_FIELDS|
      invariant 0 <= i <= |REFLECTION_FIELDS|
      invariant forall f :: Rank(f) < i ==> Get(r, f) == Some(AppendLinesToValue(Get(reflection, f), ItemsFor(entries, f)))
      invariant forall f :: Rank(f) >= i ==> Get(r, f) == Get(reflection, f)
    {
      var field := REFLECTION_FIELDS[i];
      assert Rank(field) == i;
      var items := ItemsFor(entries, field);
      var newValue := AppendLinesToValue(Get(r, field), items);
      r := Set(r, field, newValue);
      i := i + 1;
    }
  }

  /**
   * `add_reflection_items`: a journal entry without reflection lines changes nothing; otherwise
   * the reflection of the thread and the snapped date (stored or new) gets each field's own items
   * appended and is saved.
   */
  method AddReflectionItems(rows: map<(Calendar.Date, string), Reflection>, thread: string,
                            published: Calendar.Date, comment: string)
    returns (rows': map<(Calendar.Date, string), Reflection>, key: (Calendar.Date, string))
    ensures key.1 == thread
    ensures thread == "Weekly" ==>
      Calendar.Weekday(key.0) == 6 && published <= key.0 <= published + 6
    ensures thread == "big-picture" ==>
      Calendar.YearOf(key.0) == Calendar.YearOf(published) && Calendar.MonthOf(key.0) == Calendar.MonthOf(published)
      && Calendar.DayOf(key.0) == Calendar.DaysInMonth(Calendar.YearOf(published), Calendar.MonthOf(published))
    ensures thread != "Weekly" && thread != "big-picture" ==> key.0 == published
    ensures ExtractReflectionLines(comment) == [] ==> rows' == rows
    ensures ExtractReflectionLines(comment) != [] ==>
      rows'.Keys == rows.Keys + {key}
      && (forall k | k in rows && k != key :: rows'[k] == rows[k])
      && (forall f :: Get(rows'[key], f) ==
            Some(AppendLinesToValue(Get(Stored(rows, key), f), ItemsFor(ExtractReflectionLines(comment), f))))
  {
    var pubDate := SnapPublicationDate(thread, published);
    key := (pubDate, thread);
    var reflectionLines := ExtractReflectionLines(comment);
    if reflectionLines == [] {
      return rows, key;
    }
    var reflection := Stored(rows, key);
    reflection := UpdateFields(reflection, reflectionLines);
    rows' := rows[key := reflection];
  }
}
