/**
 * Habit tracking from journal lines (`habits.py`): splitting a line into `#`/`!` tokens, matching
 * each token to a habit keyword by longest common prefix, and collecting the matches.
 */
module Habits {
  import opened Wrappers
  import opened Strings

  // ---------------------------------------------------------------------------------------------
  // Prefix matching

  /** The length of the common prefix of `a` and `b`. */
  function PrefixLength(a: string, b: string): (k: nat)
    ensures k <= |a| && k <= |b| && a[..k] == b[..k]
    ensures k < |a| && k < |b| ==> a[k] != b[k]
  {
    if a == [] || b == [] || a[0] != b[0] then 0
    else
      var k := PrefixLength(a[1..], b[1..]);
      assert a[..k + 1] == [a[0]] + a[1..][..k];
      assert b[..k + 1] == [b[0]] + b[1..][..k];
      1 + k
  }

  /** Any common prefix is at most as long as the one `PrefixLength` finds. */
  lemma PrefixLengthIsMaximal(a: string, b: string, n: nat)
    requires n <= |a| && n <= |b| && a[..n] == b[..n]
    ensures n <= PrefixLength(a, b)
  {
    var k := PrefixLength(a, b);
    assert forall j :: 0 <= j < n ==> a[j] == a[..n][j] && b[j] == b[..n][j];
  }

  /**
   * `find_prefix_length`: scans both strings up to the shorter length and stops at the first
   * mismatch.
   */
  method FindPrefixLength(a: string, b: string) returns (k: nat)
    ensures k <= |a| && k <= |b| && a[..k] == b[..k]
    ensures k < |a| && k < |b| ==> a[k] != b[k]
  {
    var n := if |a| < |b| then |a| else |b|;
    var i := 0;
    while i < n
      invariant 0 <= i <= n
      invariant a[..i] == b[..i]
    {
      if a[i] != b[i] {
        break;
      }
      assert a[..i + 1] == a[..i] + [a[i]];
      assert b[..i + 1] == b[..i] + [b[i]];
      i := i + 1;
    }
    k := i;
  }

  /**
   * The best keyword for `s` among `keywords`, as `(index, length)`: the longest common prefix,
   * the earliest keyword on ties, `(None, 0)` when no keyword shares a first character.
   */
  function BestMatch(s: string, keywords: seq<string>): (r: (Option<nat>, nat))
    ensures r.0.None? ==> r.1 == 0 && forall j :: 0 <= j < |keywords| ==> PrefixLength(keywords[j], s) == 0
    ensures r.0.Some? ==>
      r.0.value < |keywords| && r.1 == PrefixLength(keywords[r.0.value], s) && r.1 > 0
      && (forall j :: 0 <= j < |keywords| ==> PrefixLength(keywords[j], s) <= r.1)
      && (forall j :: 0 <= j < r.0.value ==> PrefixLength(keywords[j], s) < r.1)
  {
    if keywords == [] then (None, 0)
    else
      var n := |keywords| - 1;
      var prev := BestMatch(s, keywords[..n]);
      assert forall j :: 0 <= j < n ==> keywords[..n][j] == keywords[j];
      var length := PrefixLength(keywords[n], s);
      if length > prev.1 then (Some(n), length) else prev
  }

  /**
   * `find_best_keyword_match`: one pass over the keywords keeping the first strictly longer
   * match; returns `(index, length, keyword)`.
   */
  method FindBestKeywordMatch(s: string, keywords: seq<string>)
    returns (index: Option<nat>, length: nat, keyword: Option<string>)
    ensures (index, length) == BestMatch(s, keywords)
    ensures index.None? ==> keyword.None?
    ensures index.Some? ==> index.value < |keywords| && keyword == Some(keywords[index.value])
  {
    index, length, keyword := None, 0, None;
    var i := 0;
    while i < |keywords|
      invariant 0 <= i <= |keywords|
      invariant (index, length) == BestMatch(s, keywords[..i])
      invariant index.None? ==> keyword.None?
      invariant index.Some? ==> index.value < i && keyword == Some(keywords[index.value])
    {
      var candidate := keywords[i];
      var l := FindPrefixLength(candidate, s);
      assert l == PrefixLength(candidate, s) by {
        PrefixLengthIsMaximal(candidate, s, l);
      }
      assert keywords[..i + 1][..i] == keywords[..i];
      if l > length {
        index, length, keyword := Some(i), l, Some(candidate);
      }
      i := i + 1;
    }
    assert keywords[..i] == keywords;
  }

  // ---------------------------------------------------------------------------------------------
  // Tokenising

  /** A zero-width match of `(?<=\s)(?=[#!])`: a `#` or `!` right after whitespace. */
  predicate IsBoundary(s: string, p: int) {
    0 < p < |s| && IsSpace(s[p - 1]) && (s[p] == '#' || s[p] == '!')
  }

  /** The pieces of `s[start..]` when split at every boundary from `i` on. */
  function SplitFrom(s: string, start: nat, i: nat): (r: seq<string>)
    requires start <= i <= |s|
    decreases |s| - i
    ensures |r| >= 1
  {
    if i == |s| then [s[start..]]
    else if IsBoundary(s, i) then [s[start..i]] + SplitFrom(s, i, i + 1)
    else SplitFrom(s, start, i + 1)
  }

  /** `PATTERN.split(s)`. */
  function SplitAtMarkers(s: string): seq<string> {
    SplitFrom(s, 0, 0)
  }

  /** The concatenation of a list of strings. */
  function Concat(parts: seq<string>): string {
    if parts == [] then "" else parts[0] + Concat(parts[1..])
  }

  /** A string with no boundary inside it. */
  predicate Unbroken(x: string) {
    forall k :: 0 < k < |x| ==> !IsBoundary(x, k)
  }

  /**
   * The pieces concatenate back to the string; every piece after the first starts at a boundary
   * (with a `#` or `!` right after whitespace), and no piece holds a boundary inside it.
   */
  lemma {:induction false} SplitFromPieces(s: string, start: nat, i: nat)
    requires start <= i <= |s|
    requires forall k :: start < k < i ==> !IsBoundary(s, k)
    ensures Concat(SplitFrom(s, start, i)) == s[start..]
    ensures forall j :: 0 < j < |SplitFrom(s, start, i)| ==>
      var x := SplitFrom(s, start, i)[j]; x != [] && (x[0] == '#' || x[0] == '!')
    ensures forall j :: 0 <= j < |SplitFrom(s, start, i)| ==> Unbroken(SplitFrom(s, start, i)[j])
    decreases |s| - i
  {
    var r := SplitFrom(s, start, i);
    if i == |s| {
      assert Concat(r) == s[start..] + Concat([]);
      forall k | 0 < k < |s[start..]| ensures !IsBoundary(s[start..], k) {
        assert IsBoundary(s[start..], k) ==> IsBoundary(s, start + k);
      }
    } else if IsBoundary(s, i) {
      SplitFromPieces(s, i, i + 1);
      var rest := SplitFrom(s, i, i + 1);
      assert r == [s[start..i]] + rest;
      assert r[1..] == rest;
      assert s[start..] == s[start..i] + s[i..];
      forall k | 0 < k < |s[start..i]| ensures !IsBoundary(s[start..i], k) {
        assert IsBoundary(s[start..i], k) ==> IsBoundary(s, start + k);
      }
      FirstPieceStart(s, i);
    } else {
      SplitFromPieces(s, start, i + 1);
    }
  }

  /** The piece that starts at a boundary starts with its marker. */
  lemma FirstPieceStart(s: string, i: nat)
    requires i < |s| && IsBoundary(s, i)
    ensures var x := SplitFrom(s, i, i + 1)[0]; x != [] && x[0] == s[i]
  {
    FirstPieceFrom(s, i, i + 1);
  }

  lemma {:induction false} FirstPieceFrom(s: string, start: nat, i: nat)
    requires start < i <= |s|
    ensures var x := SplitFrom(s, start, i)[0]; x != [] && x[0] == s[start]
    decreases |s| - i
  {
    if i < |s| && !IsBoundary(s, i) {
      FirstPieceFrom(s, start, i + 1);
    }
  }

  /** A token: a stripped piece starting with `#` or `!`. */
  predicate IsToken(x: string) {
    x != [] && (x[0] == '#' || x[0] == '!')
  }

  /** The stripped pieces that are tokens, in order. */
  function Tokens(pieces: seq<string>): (r: seq<string>)
    ensures forall i :: 0 <= i < |r| ==> IsToken(r[i]) && IsStripped(r[i])
    ensures |r| <= |pieces|
  {
    if pieces == [] then []
    else
      var x := Strip(pieces[0]);
      (if IsToken(x) then [x] else []) + Tokens(pieces[1..])
  }

  /**
   * `parse_habit_tokens`: the line, with a space in front so that a marker at its start counts,
   * is split before every `#`/`!` that follows whitespace; the stripped pieces starting with a
   * marker are the tokens.
   */
  function ParseHabitTokens(line: string): (r: seq<string>)
    ensures forall i :: 0 <= i < |r| ==> IsToken(r[i]) && IsStripped(r[i])
  {
    Tokens(SplitAtMarkers(" " + line))
  }

  /** Splitting `" " + line` loses nothing and cuts exactly at the markers that follow whitespace. */
  lemma ParseSplitsAtMarkers(line: string)
    ensures Concat(SplitAtMarkers(" " + line)) == " " + line
    ensures forall j :: 0 < j < |SplitAtMarkers(" " + line)| ==> IsToken(SplitAtMarkers(" " + line)[j])
    ensures forall j :: 0 <= j < |SplitAtMarkers(" " + line)| ==> Unbroken(SplitAtMarkers(" " + line)[j])
  {
    SplitFromPieces(" " + line, 0, 0);
    assert (" " + line)[0..] == " " + line;
  }

  /** A line without any marker has no tokens. */
  lemma NoMarkerNoTokens(line: string)
    requires '#' !in line && '!' !in line
    ensures ParseHabitTokens(line) == []
  {
    var s := " " + line;
    NoBoundaryOnePiece(s, 0, 0);
    var x := Strip(s);
    if x != [] {
      StripSlice(s);
      assert x[0] in s;
      assert x[0] != '#' && x[0] != '!' by {
        assert x[0] == ' ' || x[0] in line;
      }
    }
  }

  lemma {:induction false} NoBoundaryOnePiece(s: string, start: nat, i: nat)
    requires start <= i <= |s|
    requires '#' !in s && '!' !in s
    ensures SplitFrom(s, start, i) == [s[start..]]
    decreases |s| - i
  {
    if i < |s| {
      assert !IsBoundary(s, i) by {
        assert s[i] in s;
      }
      NoBoundaryOnePiece(s, start, i + 1);
    }
  }

  // ---------------------------------------------------------------------------------------------
  // Matching tokens to habits

  /** A habit and the keywords it answers to (`Habit.get_keywords()`). */
  datatype Habit = Habit(id: nat, keywords: seq<string>)

  /** One entry of the keyword dictionary; the dictionary keeps insertion order. */
  datatype Entry = Entry(keyword: string, habit: Habit)

  /** `habits_from_keywords.keys()`, in insertion order. */
  function Keys(d: seq<Entry>): (ks: seq<string>)
    ensures |ks| == |d| && forall i :: 0 <= i < |d| ==> ks[i] == d[i].keyword
  {
    if d == [] then [] else [d[0].keyword] + Keys(d[1..])
  }

  /** No keyword appears twice. */
  predicate DistinctKeys(d: seq<Entry>) {
    forall i, j :: 0 <= i < j < |d| ==> d[i].keyword != d[j].keyword
  }

  /**
   * `d[k] = h` on an insertion-ordered dictionary: the first entry for `k` keeps its place and
   * takes `h`; a new key goes last; every other entry stays where it was.
   */
  function Put(d: seq<Entry>, k: string, h: Habit): (r: seq<Entry>)
    ensures |r| == |d| || r == d + [Entry(k, h)]
    ensures forall i :: 0 <= i < |d| ==> r[i].keyword == d[i].keyword
    ensures forall i :: 0 <= i < |r| ==> r[i] == Entry(k, h) || (i < |d| && r[i] == d[i])
  {
    if d == [] then [Entry(k, h)]
    else if d[0].keyword == k then [Entry(k, h)] + d[1..]
    else [d[0]] + Put(d[1..], k, h)
  }

  /** The habit the dictionary gives `k`: the first entry holding it, if any. */
  function Lookup(d: seq<Entry>, k: string): (r: Option<Habit>)
    ensures r.Some? ==> Entry(k, r.value) in d
    ensures r.None? ==> forall i :: 0 <= i < |d| ==> d[i].keyword != k
  {
    if d == [] then None
    else if d[0].keyword == k then Some(d[0].habit)
    else Lookup(d[1..], k)
  }

  /** An entry whose keyword no earlier entry holds is what `Lookup` finds. */
  lemma {:induction false} LookupFirst(d: seq<Entry>, i: nat)
    requires i < |d| && forall j :: 0 <= j < i ==> d[j].keyword != d[i].keyword
    ensures Lookup(d, d[i].keyword) == Some(d[i].habit)
  {
    if i > 0 {
      LookupFirst(d[1..], i - 1);
    }
  }

  /** `Put` keeps the keys distinct. */
  lemma {:induction false} PutKeepsDistinct(d: seq<Entry>, k: string, h: Habit)
    requires DistinctKeys(d)
    ensures DistinctKeys(Put(d, k, h))
  {
    if d != [] && d[0].keyword != k {
      PutKeepsDistinct(d[1..], k, h);
      var rest := Put(d[1..], k, h);
      assert Put(d, k, h) == [d[0]] + rest;
      assert forall j :: 0 <= j < |rest| ==> rest[j].keyword != d[0].keyword by {
        forall j | 0 <= j < |rest| ensures rest[j].keyword != d[0].keyword {
          if rest[j] != Entry(k, h) {
            assert rest[j] == d[1..][j] == d[j + 1];
          }
        }
      }
    }
  }

  /** Adding every keyword of one habit, in order. */
  function PutAll(d: seq<Entry>, keywords: seq<string>, h: Habit): (r: seq<Entry>)
    decreases keywords
    ensures forall i :: 0 <= i < |r| ==> r[i].habit == h || r[i] in d
  {
    if keywords == [] then d
    else
      var d' := Put(d, keywords[0], h);
      var r := PutAll(d', keywords[1..], h);
      assert forall i :: 0 <= i < |d'| ==> d'[i].habit == h || d'[i] in d;
      r
  }

  /** `PutAll` keeps the keys distinct. */
  lemma {:induction false} PutAllKeepsDistinct(d: seq<Entry>, keywords: seq<string>, h: Habit)
    requires DistinctKeys(d)
    ensures DistinctKeys(PutAll(d, keywords, h))
    decreases keywords
  {
    if keywords != [] {
      PutKeepsDistinct(d, keywords[0], h);
      PutAllKeepsDistinct(Put(d, keywords[0], h), keywords[1..], h);
    }
  }

  /**
   * `build_keyword_to_habit_map`: every keyword of every habit, in order; a later habit listing
   * the same keyword takes it over. Every entry's habit is one of `habits`.
   */
  function BuildKeywordMap(habits: seq<Habit>): (d: seq<Entry>)
    ensures forall i :: 0 <= i < |d| ==> d[i].habit in habits
  {
    if habits == [] then []
    else
      var n := |habits| - 1;
      var prev := BuildKeywordMap(habits[..n]);
      assert forall i :: 0 <= i < |prev| ==> prev[i].habit in habits;
      PutAll(prev, habits[n].keywords, habits[n])
  }

  /** The dictionary holds each keyword once. */
  lemma {:induction false} BuildKeywordMapDistinct(habits: seq<Habit>)
    ensures DistinctKeys(BuildKeywordMap(habits))
  {
    if habits != [] {
      var n := |habits| - 1;
      BuildKeywordMapDistinct(habits[..n]);
      PutAllKeepsDistinct(BuildKeywordMap(habits[..n]), habits[n].keywords, habits[n]);
    }
  }

  /** `Lookup` after `Put` of the same key gives the new habit. */
  lemma {:induction false} LookupPut(d: seq<Entry>, k: string, h: Habit)
    ensures Lookup(Put(d, k, h), k) == Some(h)
  {
    if d != [] && d[0].keyword != k {
      LookupPut(d[1..], k, h);
    }
  }

  /** `Lookup` after `Put` of another key is unchanged. */
  lemma {:induction false} LookupPutOther(d: seq<Entry>, k: string, h: Habit, k': string)
    requires k' != k
    ensures Lookup(Put(d, k, h), k') == Lookup(d, k')
  {
    if d != [] && d[0].keyword != k {
      LookupPutOther(d[1..], k, h, k');
    }
  }

  /** After adding a habit's keywords, each of them looks up that habit and the others are unchanged. */
  lemma {:induction false} LookupPutAll(d: seq<Entry>, keywords: seq<string>, h: Habit, k: string)
    ensures k in keywords ==> Lookup(PutAll(d, keywords, h), k) == Some(h)
    ensures k !in keywords ==> Lookup(PutAll(d, keywords, h), k) == Lookup(d, k)
    decreases keywords
  {
    if keywords != [] {
      var d' := Put(d, keywords[0], h);
      LookupPutAll(d', keywords[1..], h, k);
      if k == keywords[0] {
        LookupPut(d, k, h);
      } else {
        LookupPutOther(d, keywords[0], h, k);
      }
    }
  }

  /** A keyword of the last habit listing it maps to that habit. */
  lemma LaterHabitWins(habits: seq<Habit>, h: Habit, k: string)
    requires k in h.keywords
    ensures Lookup(BuildKeywordMap(habits + [h]), k) == Some(h)
  {
    var hs := habits + [h];
    assert hs[..|hs| - 1] == habits;
    LookupPutAll(BuildKeywordMap(habits), h.keywords, h, k);
  }

  /** A tracked habit: whether it occurred, the habit, and the note. */
  datatype Tracked = Tracked(occurred: bool, habit: Habit, note: string)

  /** The first line of `s`: `s.split("\n")[0]`. */
  function FirstLine(s: string): (r: string)
    ensures |r| <= |s| && '\n' !in r && r == s[..|r|]
    ensures |r| < |s| ==> s[|r|] == '\n'
  {
    var parts := Split(s, '\n');
    if |parts| == 1 then parts[0]
    else
      assert s == parts[0] + "\n" + Join(parts[1..], "\n");
      parts[0]
  }

  /**
   * Entry `i` is the best keyword for `s`: it shares at least three leading characters with `s`,
   * no keyword shares more, and every earlier keyword shares fewer.
   */
  predicate BestEntry(d: seq<Entry>, s: string, i: nat) {
    i < |d| && PrefixLength(d[i].keyword, s) >= 3
    && (forall j :: 0 <= j < |d| ==> PrefixLength(d[j].keyword, s) <= PrefixLength(d[i].keyword, s))
    && (forall j :: 0 <= j < i ==> PrefixLength(d[j].keyword, s) < PrefixLength(d[i].keyword, s))
  }

  /**
   * `match_token_to_habit`: a `#` token records an occurrence, a `!` token a skip; the rest of the
   * token is matched against the keywords and must share at least three characters with the best
   * one, otherwise the match fails (the `ValueError`); the note is the token's first line.
   */
  function MatchTokenToHabit(token: string, d: seq<Entry>): (r: Result<Tracked, string>)
    requires token != []
    ensures r.Ok? ==> (r.value.occurred <==> token[0] == '#') && r.value.note == FirstLine(token)
    ensures r.Err? ==> r.error == "Match failed on " + token
  {
    var best := BestMatch(token[1..], Keys(d));
    if best.0.None? || best.1 < 3 then
      Err("Match failed on " + token)
    else
      var i := best.0.value;
      LookupFirst(d, i);
      Ok(Tracked(token[0] == '#', Lookup(d, Keys(d)[i]).value, FirstLine(token)))
  }

  /**
   * The match fails exactly when no keyword shares three leading characters with the token's
   * text; otherwise its habit is that of the best keyword.
   */
  lemma MatchTokenToHabitIsBest(token: string, d: seq<Entry>)
    requires token != []
    ensures MatchTokenToHabit(token, d).Err? <==>
      forall i :: 0 <= i < |d| ==> PrefixLength(d[i].keyword, token[1..]) < 3
    ensures MatchTokenToHabit(token, d).Ok? ==>
      exists i :: 0 <= i < |d| && BestEntry(d, token[1..], i) && MatchTokenToHabit(token, d).value.habit == d[i].habit
  {
    var best := BestMatch(token[1..], Keys(d));
    if best.0.Some? && best.1 >= 3 {
      var i := best.0.value;
      assert BestEntry(d, token[1..], i);
      LookupFirst(d, i);
    }
  }

  /**
   * `match_token_to_habit_or_none`: the match, or `None` when it failed. The tokens of a line are
   * never empty (`ParsedTokensNonEmpty`); an empty token, on which the source would fail with an
   * index error, gives `None` here.
   */
  function MatchTokenToHabitOrNone(token: string, d: seq<Entry>): Option<Tracked> {
    if token == [] then None
    else
      match MatchTokenToHabit(token, d)
      case Ok(m) => Some(m)
      case Err(_) => None
  }

  /** `[m for m in (f(x) for x in xs) if m is not None]`. */
  function Somes<T>(xs: seq<string>, f: string -> Option<T>): (r: seq<T>)
    ensures |r| <= |xs|
  {
    if xs == [] then []
    else (if f(xs[0]).Some? then [f(xs[0]).value] else []) + Somes(xs[1..], f)
  }

  /** Filtering a concatenation concatenates the results, in order. */
  lemma {:induction false} SomesAppend<T>(a: seq<string>, b: seq<string>, f: string -> Option<T>)
    ensures Somes(a + b, f) == Somes(a, f) + Somes(b, f)
  {
    if a != [] {
      assert (a + b)[0] == a[0] && (a + b)[1..] == a[1..] + b;
      SomesAppend(a[1..], b, f);
    } else {
      assert a + b == b;
    }
  }

  /** The position of the element result `k` comes from. */
  lemma {:induction false} SomesSource<T>(xs: seq<string>, f: string -> Option<T>, k: nat) returns (i: nat)
    requires k < |Somes(xs, f)|
    ensures i < |xs| && f(xs[i]) == Some(Somes(xs, f)[k])
  {
    var head := if f(xs[0]).Some? then [f(xs[0]).value] else [];
    if k < |head| {
      i := 0;
    } else {
      var j := SomesSource(xs[1..], f, k - |head|);
      i := j + 1;
    }
  }

  /** Nothing is kept when every element gives `None`. */
  lemma {:induction false} SomesNone<T>(xs: seq<string>, f: string -> Option<T>)
    requires forall i :: 0 <= i < |xs| ==> f(xs[i]).None?
    ensures Somes(xs, f) == []
  {
    if xs != [] {
      assert forall i :: 0 <= i < |xs| - 1 ==> xs[1..][i] == xs[i + 1];
      SomesNone(xs[1..], f);
    }
  }

  /** `match_token_to_habit_or_none` against a fixed dictionary. */
  function Matcher(d: seq<Entry>): string -> Option<Tracked> {
    token => MatchTokenToHabitOrNone(token, d)
  }

  /** `match_tokens_to_habits`: the successful matches, in token order; failed tokens are dropped. */
  function MatchTokensToHabits(tokens: seq<string>, d: seq<Entry>): (r: seq<Tracked>)
    ensures |r| <= |tokens|
  {
    Somes(tokens, Matcher(d))
  }

  /** Matching a concatenation of token lists concatenates the matches: the order is kept. */
  lemma MatchTokensAppend(a: seq<string>, b: seq<string>, d: seq<Entry>)
    ensures MatchTokensToHabits(a + b, d) == MatchTokensToHabits(a, d) + MatchTokensToHabits(b, d)
  {
    SomesAppend(a, b, Matcher(d));
  }

  /** `m` is what some token of `tokens` matches to. */
  predicate FromToken(m: Tracked, tokens: seq<string>, d: seq<Entry>) {
    exists i :: 0 <= i < |tokens| && MatchTokenToHabitOrNone(tokens[i], d) == Some(m)
  }

  /** Every match comes from some token. */
  lemma MatchTokensFromTokens(tokens: seq<string>, d: seq<Entry>, k: nat)
    requires k < |MatchTokensToHabits(tokens, d)|
    ensures FromToken(MatchTokensToHabits(tokens, d)[k], tokens, d)
  {
    var i := SomesSource(tokens, Matcher(d), k);
    assert MatchTokenToHabitOrNone(tokens[i], d) == Matcher(d)(tokens[i]);
  }

  /** When no token matches, nothing is tracked. */
  lemma NoMatchTracksNothing(tokens: seq<string>, d: seq<Entry>)
    requires forall i :: 0 <= i < |tokens| ==> MatchTokenToHabitOrNone(tokens[i], d).None?
    ensures MatchTokensToHabits(tokens, d) == []
  {
    SomesNone(tokens, Matcher(d));
  }

  /** A token whose text after the marker shares three characters with some keyword matches. */
  lemma SharedPrefixMatches(token: string, d: seq<Entry>, i: nat)
    requires i < |d| && |d[i].keyword| >= 3 && |token| >= 4 && token[1..4] == d[i].keyword[..3]
    ensures MatchTokenToHabit(token, d).Ok?
  {
    MatchTokenToHabitIsBest(token, d);
    assert token[1..][..3] == token[1..4];
    PrefixLengthIsMaximal(d[i].keyword, token[1..], 3);
  }

  /** The tokens of a line are non-empty, so none of them falls outside `match_token_to_habit`. */
  lemma ParsedTokensNonEmpty(line: string)
    ensures forall i :: 0 <= i < |ParseHabitTokens(line)| ==> ParseHabitTokens(line)[i] != []
  {
  }

  /**
   * `habits_line_to_habits_tracked`: the tokens of the line matched against the keywords of
   * `habits` (every habit when none are given, which is the caller's database query); a line
   * without tokens gives nothing.
   */
  function HabitsLineToHabitsTracked(line: string, habits: seq<Habit>): (r: seq<Tracked>)
    ensures ParseHabitTokens(line) == [] ==> r == []
    ensures |r| <= |ParseHabitTokens(line)|
  {
    var tokens := ParseHabitTokens(line);
    if tokens == [] then []
    else MatchTokensToHabits(tokens, BuildKeywordMap(habits))
  }

  /** Every tracked habit is one of the given habits, found through a keyword of the line's tokens. */
  lemma TrackedHabitsAreGiven(line: string, habits: seq<Habit>)
    ensures forall k :: 0 <= k < |HabitsLineToHabitsTracked(line, habits)| ==>
      HabitsLineToHabitsTracked(line, habits)[k].habit in habits
  {
    var tokens := ParseHabitTokens(line);
    var d := BuildKeywordMap(habits);
    if tokens != [] {
      forall k | 0 <= k < |HabitsLineToHabitsTracked(line, habits)|
        ensures HabitsLineToHabitsTracked(line, habits)[k].habit in habits
      {
        var m := HabitsLineToHabitsTracked(line, habits)[k];
        MatchTokensFromTokens(tokens, d, k);
        assert FromToken(m, tokens, d);
        var i :| 0 <= i < |tokens| && MatchTokenToHabitOrNone(tokens[i], d) == Some(m);
        MatchTokenToHabitIsBest(tokens[i], d);
      }
    }
  }

  /** A line without markers tracks nothing. */
  lemma EmptyLineTracksNothing(habits: seq<Habit>)
    ensures HabitsLineToHabitsTracked("", habits) == []
  {
    NoMarkerNoTokens("");
  }
}
