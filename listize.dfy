/**
 * Template filters of `templatetags/listize.py`: `listize` turns each line of a text into a
 * list item, `dots` repeats a dot marker and `max` caps a number.
 */
module Listize {
  import Strings

  /** The characters `str.splitlines` breaks at (a `\r\n` pair counts as one break). */
  predicate IsLineBoundary(c: char) {
    var n := c as int;
    n == 10 || n == 11 || n == 12 || n == 13 || n == 28 || n == 29 || n == 30 || n == 0x85
    || n == 0x2028 || n == 0x2029
  }

  predicate NoBoundary(s: string) {
    forall k :: 0 <= k < |s| ==> !IsLineBoundary(s[k])
  }

  /** The first line break at or after `i`, else `|s|`. */
  function LineEnd(s: string, i: nat): (j: nat)
    requires i <= |s|
    ensures i <= j <= |s|
    ensures j < |s| ==> IsLineBoundary(s[j])
    ensures NoBoundary(s[i..j])
    decreases |s| - i
  {
    if i == |s| || IsLineBoundary(s[i]) then i
    else
      var j := LineEnd(s, i + 1);
      assert s[i..j] == [s[i]] + s[i + 1..j];
      j
  }

  /** `s.splitlines()`: the lines of `s` without their breaks; no trailing empty line. */
  function SplitLines(s: string): (lines: seq<string>)
    ensures forall i :: 0 <= i < |lines| ==> NoBoundary(lines[i])
    ensures s == [] <==> lines == []
    decreases |s|
  {
    if s == [] then []
    else
      var j := LineEnd(s, 0);
      assert s[0..j] == s[..j];
      if j == |s| then [s]
      else
        [s[..j]] + SplitLines(s[AfterBreak(s, j)..])
  }

  /** The breaks `splitlines` drops, one after each line that has one. */
  function Breaks(s: string): (breaks: seq<string>)
    decreases |s|
  {
    if s == [] then []
    else
      var j := LineEnd(s, 0);
      if j == |s| then []
      else
        [s[j..AfterBreak(s, j)]] + Breaks(s[AfterBreak(s, j)..])
  }

  /** A `\r\n` pair or a single break character. */
  predicate IsBreak(b: string) {
    b == "\r\n" || (|b| == 1 && IsLineBoundary(b[0]))
  }

  /** The lines with the breaks put back after them. */
  function Interleave(lines: seq<string>, breaks: seq<string>): string
    decreases |lines|
  {
    if lines == [] then ""
    else lines[0] + (if breaks == [] then "" else breaks[0] + Interleave(lines[1..], breaks[1..]))
  }

  /** Where the next line starts after the break at `j`: a `\r\n` pair is one break. */
  function AfterBreak(s: string, j: nat): (next: nat)
    requires j < |s|
    ensures j < next <= |s|
  {
    if s[j] == '\r' && j + 1 < |s| && s[j + 1] == '\n' then j + 2 else j + 1
  }

  /** One step of `splitlines` on a text with a break: the first line and its break, then the rest. */
  lemma SplitStep(s: string)
    requires s != [] && LineEnd(s, 0) < |s|
    ensures var j := LineEnd(s, 0); var next := AfterBreak(s, j);
      SplitLines(s) == [s[..j]] + SplitLines(s[next..])
      && Breaks(s) == [s[j..next]] + Breaks(s[next..])
  {
  }

  lemma BreakIsBreak(s: string, j: nat)
    requires j < |s| && IsLineBoundary(s[j])
    ensures IsBreak(s[j..AfterBreak(s, j)])
  {
    var next := AfterBreak(s, j);
    if next == j + 2 {
      assert s[j..next] == [s[j], s[j + 1]];
    } else {
      assert s[j..next] == [s[j]];
    }
  }

  lemma InterleaveCons(a: string, lines: seq<string>, b: string, breaks: seq<string>)
    ensures Interleave([a] + lines, [b] + breaks) == a + (b + Interleave(lines, breaks))
  {
    assert ([a] + lines)[1..] == lines && ([b] + breaks)[1..] == breaks;
  }

  lemma Reassemble(s: string, j: nat, next: nat)
    requires j <= next <= |s|
    ensures s[..j] + (s[j..next] + s[next..]) == s
  {
  }

  /** Putting the dropped breaks back between the lines gives the text again; every line but
      possibly the last is followed by a break. */
  lemma {:induction false} SplitLinesRoundTrip(s: string)
    ensures |Breaks(s)| <= |SplitLines(s)| <= |Breaks(s)| + 1
    ensures forall i :: 0 <= i < |Breaks(s)| ==> IsBreak(Breaks(s)[i])
    ensures Interleave(SplitLines(s), Breaks(s)) == s
    decreases |s|
  {
    if s != [] {
      var j := LineEnd(s, 0);
      if j == |s| {
        assert SplitLines(s) == [s] && Breaks(s) == [];
        assert Interleave([s], []) == s + "";
      } else {
        var next := AfterBreak(s, j);
        SplitStep(s);
        BreakIsBreak(s, j);
        SplitLinesRoundTrip(s[next..]);
        InterleaveCons(s[..j], SplitLines(s[next..]), s[j..next], Breaks(s[next..]));
        Reassemble(s, j, next);
        var breaks := Breaks(s);
        forall i | 0 <= i < |breaks| ensures IsBreak(breaks[i]) {
          if i > 0 {
            assert breaks[i] == Breaks(s[next..])[i - 1];
          }
        }
      }
    }
  }

  /** A text without breaks is one line. */
  lemma OneLine(s: string)
    requires s != [] && NoBoundary(s)
    ensures SplitLines(s) == [s]
  {
    LineEndWithoutBoundary(s, 0);
  }

  lemma {:induction false} LineEndWithoutBoundary(s: string, i: nat)
    requires i <= |s| && NoBoundary(s)
    ensures LineEnd(s, i) == |s|
    decreases |s| - i
  {
    if i < |s| {
      LineEndWithoutBoundary(s, i + 1);
    }
  }

  /** A line, one break of any kind (`\r\n` included) and a further line are two lines. */
  lemma TwoLines(a: string, sep: string, b: string)
    requires NoBoundary(a) && b != [] && NoBoundary(b)
    requires sep == "\n" || sep == "\r" || sep == "\r\n"
    ensures SplitLines(a + sep + b) == [a, b]
  {
    var s := a + sep + b;
    LineEndPrefix(s, a);
    assert s[..|a|] == a;
    assert s[|a|] == sep[0];
    assert s[|a| + |sep|..] == b;
    OneLine(b);
  }

  /** The first break of `s` comes right after a leading break-free part `a` when `s` has a break there. */
  lemma {:induction false} LineEndPrefix(s: string, a: string)
    requires |a| < |s| && s[..|a|] == a && NoBoundary(a) && IsLineBoundary(s[|a|])
    ensures LineEnd(s, 0) == |a|
  {
    LineEndFrom(s, 0, |a|);
  }

  lemma {:induction false} LineEndFrom(s: string, i: nat, e: nat)
    requires i <= e < |s| && IsLineBoundary(s[e])
    requires forall k :: i <= k < e ==> !IsLineBoundary(s[k])
    ensures LineEnd(s, i) == e
    decreases e - i
  {
    if i < e {
      LineEndFrom(s, i + 1, e);
    }
  }

  /** The items `"<li>" + x.strip() + "</li>"`, one per line. */
  function Items(lines: seq<string>): (items: seq<string>)
    ensures |items| == |lines|
    ensures forall i :: 0 <= i < |lines| ==> items[i] == "<li>" + Strings.Strip(lines[i]) + "</li>"
  {
    if lines == [] then [] else ["<li>" + Strings.Strip(lines[0]) + "</li>"] + Items(lines[1..])
  }

  /** `listize`: "" for a blank text, else a `<ul>` of one stripped item per line. */
  function Listize(value: string): (r: string)
    ensures Strings.Strip(value) == [] ==> r == ""
    ensures Strings.Strip(value) != [] ==>
      r == "<ul>" + Strings.Join(Items(SplitLines(value)), "\n") + "</ul>"
  {
    if Strings.Strip(value) == [] then ""
    else "<ul>" + Strings.Join(Items(SplitLines(value)), "\n") + "</ul>"
  }

  /** An item holds no newline: the stripped line is part of a line without breaks. */
  lemma ItemHasNoNewline(line: string)
    requires NoBoundary(line)
    ensures '\n' !in "<li>" + Strings.Strip(line) + "</li>"
  {
    Strings.StripSlice(line);
    var i := Strings.SkipSpace(line, 0);
    var r := Strings.Strip(line);
    forall k | 0 <= k < |r| ensures r[k] != '\n' {
      assert r[k] == line[i + k];
    }
    var x := "<li>" + r + "</li>";
    forall k | 0 <= k < |x| ensures x[k] != '\n' {
      if 4 <= k < 4 + |r| {
        assert x[k] == r[k - 4];
      }
    }
  }

  /**
   * What `listize` shows: nothing for a blank text; otherwise a `<ul>` whose content, split at
   * newlines, is one item per line of the text, holding that line stripped.
   */
  lemma ListizeMeaning(value: string)
    ensures Strings.Strip(value) == [] ==> Listize(value) == ""
    ensures Strings.Strip(value) != [] ==>
      var r := Listize(value);
      var lines := SplitLines(value);
      9 <= |r| && r == "<ul>" + r[4..|r| - 5] + "</ul>"
      && |Strings.Split(r[4..|r| - 5], '\n')| == |lines|
      && forall i :: 0 <= i < |lines| ==>
        Strings.Split(r[4..|r| - 5], '\n')[i] == "<li>" + Strings.Strip(lines[i]) + "</li>"
  {
    if Strings.Strip(value) != [] {
      var lines := SplitLines(value);
      var items := Items(lines);
      var inner := Strings.Join(items, "\n");
      var r := Listize(value);
      assert r == "<ul>" + inner + "</ul>";
      assert r[4..|r| - 5] == inner;
      forall i | 0 <= i < |items| ensures '\n' !in items[i] {
        ItemHasNoNewline(lines[i]);
      }
      Strings.SplitJoin(items, '\n');
      assert "\n" == ['\n'];
    }
  }

  /** A single visible line becomes a list with one item. */
  lemma ListizeOneLine(value: string)
    requires Strings.Strip(value) != [] && NoBoundary(value)
    ensures Listize(value) == "<ul><li>" + Strings.Strip(value) + "</li></ul>"
  {
    OneLine(value);
    var s := Strings.Strip(value);
    var item := "<li>" + s + "</li>";
    ItemsOne(value);
    ListizeItems(value, [item]);
    assert Strings.Join([item], "\n") == item;
    Markup();
    Wrap("<ul>", "<li>", s, "</li>", "</ul>", "<ul><li>", "</li></ul>");
  }

  /** Two lines become two items joined by a newline, whatever break separated them. */
  lemma ListizeTwoLines(a: string, sep: string, b: string)
    requires NoBoundary(a) && b != [] && NoBoundary(b) && Strings.Strip(b) != []
    requires sep == "\n" || sep == "\r" || sep == "\r\n"
    ensures Listize(a + sep + b)
      == "<ul><li>" + Strings.Strip(a) + "</li>\n<li>" + Strings.Strip(b) + "</li></ul>"
  {
    var value := a + sep + b;
    TwoLines(a, sep, b);
    VisibleSuffix(a + sep, b);
    var s, t := Strings.Strip(a), Strings.Strip(b);
    var x, y := "<li>" + s + "</li>", "<li>" + t + "</li>";
    ItemsTwo(a, b);
    ListizeItems(value, [x, y]);
    JoinTwo(x, y, "\n");
    Markup();
    Wrap2("<ul>", "<li>", s, "</li>", "\n", t, "</ul>", "<ul><li>", "</li>\n<li>", "</li></ul>");
  }

  /** The list of a visible text, given its items. */
  lemma ListizeItems(value: string, items: seq<string>)
    requires Strings.Strip(value) != [] && Items(SplitLines(value)) == items
    ensures Listize(value) == "<ul>" + Strings.Join(items, "\n") + "</ul>"
  {
  }

  lemma ItemsOne(a: string)
    ensures Items([a]) == ["<li>" + Strings.Strip(a) + "</li>"]
  {
  }

  lemma ItemsTwo(a: string, b: string)
    ensures Items([a, b]) == ["<li>" + Strings.Strip(a) + "</li>", "<li>" + Strings.Strip(b) + "</li>"]
  {
  }

  lemma JoinTwo(x: string, y: string, sep: string)
    ensures Strings.Join([x, y], sep) == x + sep + y
  {
    assert [x, y][1..] == [y];
  }

  lemma Wrap(p: string, q: string, x: string, u: string, v: string, pq: string, uv: string)
    requires pq == p + q && uv == u + v
    ensures p + (q + x + u) + v == pq + x + uv
  {
  }

  lemma Markup()
    ensures "<ul>" + "<li>" == "<ul><li>"
    ensures "</li>" + "\n" + "<li>" == "</li>\n<li>"
    ensures "</li>" + "</ul>" == "</li></ul>"
  {
  }

  lemma Wrap2(p: string, q: string, x: string, u: string, n: string, y: string, v: string,
               pq: string, unq: string, uv: string)
    requires pq == p + q && unq == u + n + q && uv == u + v
    ensures p + ((q + x + u) + n + (q + y + u)) + v == pq + x + unq + y + uv
  {
  }

  /** A text ending in a part with a visible character is not blank. */
  lemma VisibleSuffix(p: string, b: string)
    requires Strings.Strip(b) != []
    ensures Strings.Strip(p + b) != []
  {
    Strings.StripEmptyIffAllSpace(b);
    var k :| 0 <= k < |b| && !Strings.IsSpace(b[k]);
    assert (p + b)[|p| + k] == b[k];
    Strings.StripEmptyIffAllSpace(p + b);
  }

  /** The markup `dots` repeats. */
  const DOT := "<span class=\"dot\"></span> "

  /** `max`: `value` capped at `max`. */
  function Max(value: int, max: int): (r: int)
    ensures r <= value && r <= max && (r == value || r == max)
  {
    if max < value then max else value
  }

  /** `dots`: as many dot markers as `max` shows, none for a count of zero or less. */
  function Dots(value: int, max: int): (r: string)
    ensures |r| == |DOT| * (if Max(value, max) <= 0 then 0 else Max(value, max))
    ensures forall k :: 0 <= k < |r| ==> r[k] == DOT[k % |DOT|]
  {
    DotsCycle(Max(value, max));
    Strings.Repeat(DOT, Max(value, max))
  }

  /** Character `k` of `n` dot markers is character `k % |DOT|` of the marker. */
  lemma {:induction false} DotsCycle(n: int)
    ensures forall k :: 0 <= k < |Strings.Repeat(DOT, n)| ==> Strings.Repeat(DOT, n)[k] == DOT[k % |DOT|]
    decreases if n < 0 then 0 else n
  {
    assert |DOT| == 26;
    if n > 0 {
      DotsCycle(n - 1);
      var r := Strings.Repeat(DOT, n);
      forall k | 26 <= k < |r| ensures r[k] == DOT[k % 26] {
        assert r[k] == Strings.Repeat(DOT, n - 1)[k - 26];
        assert (k - 26) % 26 == k % 26;
      }
    }
  }
}
