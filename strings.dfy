/**
 * Python string primitives the source relies on: `str.isspace`, `strip`, `rstrip`,
 * `split(sep)`, `"sep".join`, `replace`, `startswith` and substring search.
 * Strings are sequences of characters; nothing here depends on an encoding.
 */
module Strings {
  import opened Wrappers

  /**
   * The characters for which Python's `str.isspace()` holds (also what `\s` matches): tab to
   * carriage return, the separators 0x1C-0x1F, space, next line, no-break space, the ogham space
   * mark, the spaces 0x2000-0x200A, the line and paragraph separators, the narrow no-break space,
   * the medium mathematical space and the ideographic space.
   */
  predicate IsSpace(c: char) {
    var n := c as int;
    (9 <= n <= 13) || (28 <= n <= 32) || n == 0x85 || n == 0xA0 || n == 0x1680
    || (0x2000 <= n <= 0x200A) || n == 0x2028 || n == 0x2029 || n == 0x202F || n == 0x205F
    || n == 0x3000
  }

  /** No whitespace at either end. */
  predicate IsStripped(s: string) {
    s == [] || (!IsSpace(s[0]) && !IsSpace(s[|s| - 1]))
  }

  /** The index of the first character at or after `i` that is not whitespace, else `|s|`. */
  function SkipSpace(s: string, i: nat): (j: nat)
    requires i <= |s|
    ensures i <= j <= |s|
    ensures j == |s| || !IsSpace(s[j])
    decreases |s| - i
  {
    if i == |s| || !IsSpace(s[i]) then i else SkipSpace(s, i + 1)
  }

  /** Everything `SkipSpace` passes over is whitespace. */
  lemma {:induction false} SkipSpaceSkipsSpace(s: string, i: nat)
    requires i <= |s|
    ensures forall k :: i <= k < SkipSpace(s, i) ==> IsSpace(s[k])
    decreases |s| - i
  {
    if i < |s| && IsSpace(s[i]) {
      SkipSpaceSkipsSpace(s, i + 1);
    }
  }

  /** The end of `s[lo..hi]` once its trailing whitespace is dropped. */
  function TrimEnd(s: string, lo: nat, hi: nat): (e: nat)
    requires lo <= hi <= |s|
    ensures lo <= e <= hi
    ensures e == lo || !IsSpace(s[e - 1])
    decreases hi - lo
  {
    if hi == lo || !IsSpace(s[hi - 1]) then hi else TrimEnd(s, lo, hi - 1)
  }

  /** Everything `TrimEnd` drops is whitespace. */
  lemma {:induction false} TrimEndTrimsSpace(s: string, lo: nat, hi: nat)
    requires lo <= hi <= |s|
    ensures forall k :: TrimEnd(s, lo, hi) <= k < hi ==> IsSpace(s[k])
    decreases hi - lo
  {
    if hi > lo && IsSpace(s[hi - 1]) {
      TrimEndTrimsSpace(s, lo, hi - 1);
    }
  }

  /** `s.rstrip()`: drops the trailing whitespace and nothing else. */
  function RStrip(s: string): (r: string)
    ensures |r| <= |s| && r == s[..|r|]
    ensures r == [] || !IsSpace(r[|r| - 1])
  {
    s[..TrimEnd(s, 0, |s|)]
  }

  /** `s.strip()`: the whitespace-free middle of `s`. */
  function Strip(s: string): (r: string)
    ensures IsStripped(r)
    ensures |r| <= |s|
  {
    var i := SkipSpace(s, 0);
    s[i..TrimEnd(s, i, |s|)]
  }

  /** What `strip` cuts off is whitespace, and what it keeps is a contiguous slice. */
  lemma StripSlice(s: string)
    ensures var i := SkipSpace(s, 0); var r := Strip(s);
      i + |r| <= |s| && r == s[i..i + |r|]
      && (forall k :: 0 <= k < i ==> IsSpace(s[k]))
      && (forall k :: i + |r| <= k < |s| ==> IsSpace(s[k]))
  {
    SkipSpaceSkipsSpace(s, 0);
    TrimEndTrimsSpace(s, SkipSpace(s, 0), |s|);
  }

  lemma StrippedIsFixed(s: string)
    requires IsStripped(s)
    ensures Strip(s) == s
  {
    assert SkipSpace(s, 0) == 0;
    assert TrimEnd(s, 0, |s|) == |s|;
    assert s[0..|s|] == s;
  }

  /** An all-whitespace string strips to "" and a string with a visible character does not. */
  lemma StripEmptyIffAllSpace(s: string)
    ensures Strip(s) == [] <==> forall k :: 0 <= k < |s| ==> IsSpace(s[k])
  {
    StripSlice(s);
    var i := SkipSpace(s, 0);
    if forall k :: 0 <= k < |s| ==> IsSpace(s[k]) {
      assert i == |s|;
    }
  }

  /** `s.rstrip(chars)`: drops trailing characters that belong to `chars`. */
  function RStripChars(s: string, chars: set<char>): (r: string)
    ensures |r| <= |s| && r == s[..|r|]
    ensures r == [] || r[|r| - 1] !in chars
    ensures forall i :: |r| <= i < |s| ==> s[i] in chars
  {
    if s == [] || s[|s| - 1] !in chars then s else RStripChars(s[..|s| - 1], chars)
  }

  /** `sep.join(parts)`. */
  function Join(parts: seq<string>, sep: string): string {
    if |parts| == 0 then ""
    else if |parts| == 1 then parts[0]
    else parts[0] + sep + Join(parts[1..], sep)
  }

  /** `s.split(sep)` for a one-character separator: never empty, pieces free of `sep`,
      and joining the pieces with `sep` gives `s` back. */
  function Split(s: string, sep: char): (r: seq<string>)
    ensures |r| >= 1
    ensures forall i :: 0 <= i < |r| ==> sep !in r[i]
    ensures Join(r, [sep]) == s
    ensures |r| == 1 <==> sep !in s
  {
    if s == [] then [""]
    else if s[0] == sep then [""] + Split(s[1..], sep)
    else
      var rest := Split(s[1..], sep);
      assert sep !in s ==> sep !in s[1..];
      var r := [[s[0]] + rest[0]] + rest[1..];
      assert |rest| == 1 ==> Join(r, [sep]) == s;
      assert |rest| > 1 ==> Join(r, [sep]) == [s[0]] + Join(rest, [sep]);
      r
  }

  /** Splitting undoes joining when no part contains the separator. */
  lemma {:induction false} SplitJoin(parts: seq<string>, sep: char)
    requires |parts| >= 1
    requires forall i :: 0 <= i < |parts| ==> sep !in parts[i]
    ensures Split(Join(parts, [sep]), sep) == parts
  {
    if |parts| == 1 {
      SplitNoSep(parts[0], sep);
    } else {
      SplitJoin(parts[1..], sep);
      SplitPrefix(parts[0], Join(parts[1..], [sep]), sep);
      assert parts == [parts[0]] + parts[1..];
    }
  }

  lemma {:induction false} SplitNoSep(s: string, sep: char)
    requires sep !in s
    ensures Split(s, sep) == [s]
  {
    if s != [] {
      SplitNoSep(s[1..], sep);
    }
  }

  lemma {:induction false} SplitPrefix(p: string, rest: string, sep: char)
    requires sep !in p
    ensures Split(p + [sep] + rest, sep) == [p] + Split(rest, sep)
  {
    if p == [] {
      assert p + [sep] + rest == [sep] + rest;
      assert ([sep] + rest)[1..] == rest;
    } else {
      var s := p + [sep] + rest;
      assert s[0] == p[0] && s[1..] == p[1..] + [sep] + rest;
      SplitPrefix(p[1..], rest, sep);
      var tail := Split(s[1..], sep);
      assert tail == [p[1..]] + Split(rest, sep);
      assert Split(s, sep) == [[p[0]] + tail[0]] + tail[1..];
      assert [p[0]] + p[1..] == p;
    }
  }

  /** `s.replace(c, "")` for one character. */
  function RemoveChar(s: string, c: char): (r: string)
    ensures c !in r
    ensures |r| <= |s|
  {
    if s == [] then ""
    else
      var rest := RemoveChar(s[1..], c);
      if s[0] == c then rest else [s[0]] + rest
  }

  /** Every other character keeps its number of occurrences. */
  lemma {:induction false} RemoveCharKeepsOthers(s: string, c: char, x: char)
    requires x != c
    ensures multiset(RemoveChar(s, c))[x] == multiset(s)[x]
  {
    if s != [] {
      RemoveCharKeepsOthers(s[1..], c, x);
      assert s == [s[0]] + s[1..];
    }
  }

  /** Removing a character that does not occur changes nothing. */
  lemma {:induction false} RemoveCharAbsent(s: string, c: char)
    requires c !in s
    ensures RemoveChar(s, c) == s
  {
    if s != [] {
      RemoveCharAbsent(s[1..], c);
    }
  }

  /** Removing `c` commutes with appending a character other than `c`. */
  lemma {:induction false} RemoveCharSnoc(s: string, x: char, c: char)
    requires x != c
    ensures RemoveChar(s + [x], c) == RemoveChar(s, c) + [x]
  {
    if s == [] {
      assert RemoveChar([x], c) == [x] + RemoveChar([], c);
    } else {
      assert (s + [x])[1..] == s[1..] + [x];
      RemoveCharSnoc(s[1..], x, c);
    }
  }

  /** Removing a whitespace character from a stripped string leaves it stripped. */
  lemma RemoveSpaceKeepsStripped(s: string, c: char)
    requires IsStripped(s) && IsSpace(c)
    ensures IsStripped(RemoveChar(s, c))
  {
    if s != [] {
      var r := RemoveChar(s, c);
      assert r[0] == s[0];
      assert s == s[..|s| - 1] + [s[|s| - 1]];
      RemoveCharSnoc(s[..|s| - 1], s[|s| - 1], c);
    }
  }

  /** `s.strip().replace("\r", "")`. */
  function Normalised(s: string): (r: string)
    ensures '\r' !in r
    ensures IsStripped(r)
  {
    RemoveSpaceKeepsStripped(Strip(s), '\r');
    RemoveChar(Strip(s), '\r')
  }

  /** Strings that strip alike normalise alike. */
  lemma NormalisedOfStrip(a: string, b: string)
    requires Strip(a) == Strip(b)
    ensures Normalised(a) == Normalised(b)
  {
  }

  /** Normalising twice is normalising once. */
  lemma NormalisedIdempotent(s: string)
    ensures Normalised(Normalised(s)) == Normalised(s)
  {
    var t := Normalised(s);
    StrippedIsFixed(t);
    RemoveCharAbsent(t, '\r');
  }

  predicate StartsWith(s: string, prefix: string) {
    |prefix| <= |s| && s[..|prefix|] == prefix
  }

  /** `pat` occurs in `s` starting at index `j`. */
  predicate OccursAt(s: string, pat: string, j: int) {
    0 <= j && j + |pat| <= |s| && s[j..j + |pat|] == pat
  }

  /** The first index at or after `from` where `pat` occurs in `s`. */
  function FindFrom(s: string, pat: string, from: nat): (r: Option<nat>)
    decreases |s| - from
    ensures r.Some? ==> from <= r.value && OccursAt(s, pat, r.value)
    ensures r.Some? ==> forall j :: from <= j < r.value ==> !OccursAt(s, pat, j)
    ensures r.None? ==> forall j :: from <= j ==> !OccursAt(s, pat, j)
  {
    if from + |pat| > |s| then None
    else if s[from..from + |pat|] == pat then Some(from)
    else FindFrom(s, pat, from + 1)
  }

  /** `s.find(pat)` as an Option. */
  function Find(s: string, pat: string): Option<nat> {
    FindFrom(s, pat, 0)
  }

  /** `pat in s`. */
  predicate Contains(s: string, pat: string) {
    Find(s, pat).Some?
  }

  /** `s.replace(pat, "", 1)`: removes the first occurrence of `pat`, if any. */
  function RemoveFirst(s: string, pat: string): (r: string)
    ensures Find(s, pat).None? ==> r == s
    ensures Find(s, pat).Some? ==>
      var i := Find(s, pat).value; r == s[..i] + s[i + |pat|..] && |r| == |s| - |pat|
  {
    match Find(s, pat)
    case None => s
    case Some(i) => s[..i] + s[i + |pat|..]
  }

  /** `str(n)` for an integer: a minus sign before the digits of a negative number. */
  function IntToString(n: int): string {
    if n < 0 then "-" + NaturalToString(-n) else NaturalToString(n)
  }

  /** The decimal digits of a natural number, most significant first, with no leading zero. */
  function NaturalToString(n: nat): string
    decreases n
  {
    if n < 10 then [DigitChar(n)] else NaturalToString(n / 10) + [DigitChar(n % 10)]
  }

  function DigitChar(d: nat): char
    requires d < 10
  {
    ['0', '1', '2', '3', '4', '5', '6', '7', '8', '9'][d]
  }

  /** The number a string of decimal digits spells, most significant digit first. */
  function DigitsValue(s: string): int {
    if s == [] then 0 else 10 * DigitsValue(s[..|s| - 1]) + (s[|s| - 1] as int - '0' as int)
  }

  /** Reading back the digits `str` writes for a natural number gives the number. */
  lemma {:induction false} NaturalToStringValue(n: nat)
    ensures DigitsValue(NaturalToString(n)) == n
    decreases n
  {
    var s := NaturalToString(n);
    if n < 10 {
      DigitCharValue(n);
      assert s[..0] == [];
    } else {
      NaturalToStringValue(n / 10);
      DigitCharValue(n % 10);
      assert s[..|s| - 1] == NaturalToString(n / 10);
    }
  }

  lemma DigitCharValue(d: nat)
    requires d < 10
    ensures DigitChar(d) as int - '0' as int == d
  {
    assert d == 0 || d == 1 || d == 2 || d == 3 || d == 4 || d == 5 || d == 6 || d == 7 || d == 8 || d == 9;
  }

  /** `int(s)` for the strings `str` writes: an optional minus sign and decimal digits. */
  function ParseInt(s: string): int {
    if s != [] && s[0] == '-' then -DigitsValue(s[1..]) else DigitsValue(s)
  }

  /** Reading back what `str` writes for an integer gives the integer. */
  lemma IntToStringRoundTrip(n: int)
    ensures ParseInt(IntToString(n)) == n
  {
    if n < 0 {
      var digits := NaturalToString(-n);
      NaturalToStringValue(-n);
      ParseSigned(digits, -n);
    } else {
      var digits := NaturalToString(n);
      NaturalToStringValue(n);
      NaturalStringUnsigned(n);
      ParseUnsigned(digits, n);
    }
  }

  lemma ParseSigned(digits: string, value: int)
    requires DigitsValue(digits) == value
    ensures ParseInt("-" + digits) == -value
  {
    assert ("-" + digits)[1..] == digits;
  }

  lemma ParseUnsigned(digits: string, value: int)
    requires digits != [] && digits[0] != '-' && DigitsValue(digits) == value
    ensures ParseInt(digits) == value
  {
  }

  /** Distinct integers have distinct decimal strings. */
  lemma IntToStringInjective(m: int, n: int)
    requires IntToString(m) == IntToString(n)
    ensures m == n
  {
    IntToStringRoundTrip(m);
    IntToStringRoundTrip(n);
  }

  /** The digits of a natural number start with a digit, never with a minus sign. */
  lemma {:induction false} NaturalStringUnsigned(n: nat)
    ensures NaturalToString(n) != [] && NaturalToString(n)[0] != '-'
    decreases n
  {
    if n < 10 {
      assert n == 0 || n == 1 || n == 2 || n == 3 || n == 4 || n == 5 || n == 6 || n == 7 || n == 8 || n == 9;
    } else {
      NaturalStringUnsigned(n / 10);
    }
  }

  /** `s * n`: `n` copies of `s`, nothing for `n <= 0`. */
  function Repeat(s: string, n: int): (r: string)
    decreases if n < 0 then 0 else n
    ensures |r| == if n <= 0 then 0 else n * |s|
  {
    if n <= 0 then "" else s + Repeat(s, n - 1)
  }
}
