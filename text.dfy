/** Character classes and string helpers shared by the checks: Python's
    whitespace test, ASCII case folding, stripping, whitespace splitting and
    line joining, all over `string` (a sequence of characters). */
module Text {

  /** Python's `str.isspace()` (and the `\s` class of `re`) restricted to ASCII:
      tab, line feed, vertical tab, form feed, carriage return, the four
      information separators 0x1C-0x1F, and the space character. */
  predicate IsSpace(c: char) {
    c == ' ' || ('\t' <= c <= '\r') || ('\U{1C}' <= c <= '\U{1F}')
  }

  /** ASCII lower-casing, the case folding `re.IGNORECASE` applies to ASCII letters. */
  function Lower(c: char): (l: char)
    ensures 'A' <= c <= 'Z' ==> 'a' <= l <= 'z' && l as int - c as int == 32
    ensures !('A' <= c <= 'Z') ==> l == c
  {
    if 'A' <= c <= 'Z' then (c as int + 32) as char else c
  }

  function LowerString(s: string): (l: string)
    ensures |l| == |s|
    ensures forall x :: 0 <= x < |s| ==> l[x] == Lower(s[x])
  {
    if s == [] then [] else [Lower(s[0])] + LowerString(s[1..])
  }

  /** Lower-casing never turns a non-space character into a space, nor the reverse. */
  lemma LowerKeepsSpace(c: char)
    ensures IsSpace(Lower(c)) <==> IsSpace(c)
  {
  }

  /** The lower-case word `w` occurs case-insensitively in `t` at position `i`. */
  predicate MatchesAt(t: string, i: nat, w: string) {
    i + |w| <= |t| && forall x :: 0 <= x < |w| ==> Lower(t[i + x]) == w[x]
  }

  /** Every character of `t[a..b]` is whitespace. */
  predicate AllSpace(t: string, a: nat, b: nat)
    requires a <= b <= |t|
  {
    forall x {:trigger IsSpace(t[x])} :: a <= x < b ==> IsSpace(t[x])
  }

  /** End of the maximal whitespace run that starts at `i` (what a greedy `\s*` consumes). */
  function SkipSpace(t: string, i: nat): (r: nat)
    requires i <= |t|
    ensures i <= r <= |t|
    ensures r == |t| || !IsSpace(t[r])
    decreases |t| - i
  {
    if i == |t| || !IsSpace(t[i]) then i else SkipSpace(t, i + 1)
  }

  /** What `SkipSpace` skips is whitespace. */
  lemma {:induction false} SkipSpaceIsRun(t: string, i: nat)
    requires i <= |t|
    ensures AllSpace(t, i, SkipSpace(t, i))
    decreases |t| - i
  {
    if i < |t| && IsSpace(t[i]) {
      SkipSpaceIsRun(t, i + 1);
    }
  }

  /** Any whitespace run from `i` ends at or before the maximal one. */
  lemma SpaceRunWithin(t: string, i: nat, j: nat)
    requires i <= j <= |t| && AllSpace(t, i, j)
    ensures j <= SkipSpace(t, i)
  {
  }

  /** Python's `str.strip()`: drops leading and trailing whitespace. */
  function Strip(s: string): (r: string)
    ensures r == [] <==> forall x {:trigger IsSpace(s[x])} :: 0 <= x < |s| ==> IsSpace(s[x])
    ensures r != [] ==> !IsSpace(r[0]) && !IsSpace(r[|r| - 1])
    ensures |r| <= |s|
    ensures forall c :: c in r ==> c in s
  {
    var a := SkipSpace(s, 0);
    SkipSpaceIsRun(s, 0);
    s[a..TrimEnd(s, a)]
  }

  /** The strip is the slice of `s` left between a whitespace prefix and a
      whitespace suffix. */
  lemma StripIsTrimmedSlice(s: string)
    ensures exists a, b :: 0 <= a <= b <= |s| && Strip(s) == s[a..b] && AllSpace(s, 0, a) && AllSpace(s, b, |s|)
  {
    var a := SkipSpace(s, 0);
    SkipSpaceIsRun(s, 0);
    var b := TrimEnd(s, a);
    assert Strip(s) == s[a..b];
  }

  /** The end of `s` once trailing whitespace after position `a` is removed. */
  function TrimEnd(s: string, a: nat): (b: nat)
    requires a <= |s|
    ensures a <= b <= |s|
    ensures AllSpace(s, b, |s|)
    ensures b == a || !IsSpace(s[b - 1])
    decreases |s|
  {
    if |s| == a || !IsSpace(s[|s| - 1]) then |s|
    else
      var b := TrimEnd(s[..|s| - 1], a);
      assert forall x :: b <= x < |s| - 1 ==> s[x] == s[..|s| - 1][x];
      b
  }

  /** A stripped, non-empty string is its own strip. */
  lemma StripTidy(s: string)
    requires s == [] || (!IsSpace(s[0]) && !IsSpace(s[|s| - 1]))
    ensures Strip(s) == s
  {
    if s != [] {
      assert SkipSpace(s, 0) == 0;
      assert TrimEnd(s, 0) == |s|;
    }
  }

  /** Stripping one leading blank off a stripped string gives it back. */
  lemma StripLeadingBlank(s: string)
    requires s != [] && !IsSpace(s[0]) && !IsSpace(s[|s| - 1])
    ensures Strip([' '] + s) == s
  {
    var t := [' '] + s;
    assert SkipSpace(t, 1) == 1;
    assert SkipSpace(t, 0) == 1;
    assert TrimEnd(t, 1) == |t|;
    assert t[1..|t|] == s;
  }

  /** Python's `str.split()` with no argument: the maximal runs of non-whitespace
      characters, in order. */
  function Words(s: string): (ws: seq<string>)
    ensures |ws| == RunCount(s)
    ensures forall w :: w in ws ==> IsWord(w)
  {
    WordsFromCountRuns(s, 0);
    WordsAreNonSpaceRuns(s, 0);
    WordsFrom(s, 0)
  }

  /** A word: non-empty and free of whitespace. */
  predicate IsWord(w: string) {
    w != [] && forall x {:trigger IsSpace(w[x])} :: 0 <= x < |w| ==> !IsSpace(w[x])
  }

  /** The words of `s` that start at or after position `i`. */
  function WordsFrom(s: string, i: nat): seq<string>
    requires i <= |s|
    decreases |s| - i
  {
    var a := SkipSpace(s, i);
    if a == |s| then []
    else
      var b := WordEnd(s, a);
      [s[a..b]] + WordsFrom(s, b)
  }

  /** End of the maximal non-whitespace run that starts at `i`. */
  function WordEnd(s: string, i: nat): (r: nat)
    requires i <= |s|
    ensures i <= r <= |s|
    ensures r == |s| || IsSpace(s[r])
    decreases |s| - i
  {
    if i == |s| || IsSpace(s[i]) then i else WordEnd(s, i + 1)
  }

  /** What `WordEnd` skips holds no whitespace. */
  lemma {:induction false} WordEndIsWord(s: string, i: nat)
    requires i <= |s|
    ensures forall x {:trigger IsSpace(s[x])} :: i <= x < WordEnd(s, i) ==> !IsSpace(s[x])
    decreases |s| - i
  {
    if i < |s| && !IsSpace(s[i]) {
      WordEndIsWord(s, i + 1);
    }
  }

  /** Every word is non-empty and free of whitespace. */
  lemma {:induction false} WordsAreNonSpaceRuns(s: string, i: nat)
    requires i <= |s|
    ensures forall w :: w in WordsFrom(s, i) ==> IsWord(w)
    decreases |s| - i
  {
    var a := SkipSpace(s, i);
    if a < |s| {
      var e := WordEnd(s, a);
      WordEndIsWord(s, a);
      WordsAreNonSpaceRuns(s, e);
      var w := s[a..e];
      forall x | 0 <= x < |w| ensures !IsSpace(w[x]) {
        assert w[x] == s[a + x];
      }
    }
  }

  /** Independent count of the maximal non-whitespace runs: a character-by-character
      scan counting each non-space character that follows a space (or the start). */
  function RunsFrom(s: string, i: nat, afterSpace: bool): nat
    requires i <= |s|
    decreases |s| - i
  {
    if i == |s| then 0
    else (if afterSpace && !IsSpace(s[i]) then 1 else 0) + RunsFrom(s, i + 1, IsSpace(s[i]))
  }

  function RunCount(s: string): nat {
    RunsFrom(s, 0, true)
  }

  lemma {:induction false} RunsSkipSpace(s: string, i: nat, j: nat)
    requires i <= j <= |s| && AllSpace(s, i, j)
    ensures RunsFrom(s, i, true) == RunsFrom(s, j, true)
    decreases j - i
  {
    if i < j {
      RunsSkipSpace(s, i + 1, j);
    }
  }

  lemma {:induction false} RunsSkipWord(s: string, i: nat, j: nat)
    requires i <= j <= |s| && forall x {:trigger IsSpace(s[x])} :: i <= x < j ==> !IsSpace(s[x])
    ensures RunsFrom(s, i, false) == RunsFrom(s, j, false)
    decreases j - i
  {
    if i < j {
      RunsSkipWord(s, i + 1, j);
    }
  }

  lemma {:induction false} WordsFromCountRuns(s: string, i: nat)
    requires i <= |s|
    ensures |WordsFrom(s, i)| == RunsFrom(s, i, true)
    decreases |s| - i
  {
    var a := SkipSpace(s, i);
    SkipSpaceIsRun(s, i);
    RunsSkipSpace(s, i, a);
    if a < |s| {
      var b := WordEnd(s, a);
      WordEndIsWord(s, a);
      RunsSkipWord(s, a + 1, b);
      assert RunsFrom(s, a, true) == 1 + RunsFrom(s, b, false);
      if b < |s| {
        assert RunsFrom(s, b, false) == RunsFrom(s, b + 1, true) == RunsFrom(s, b, true);
      }
      WordsFromCountRuns(s, b);
    }
  }

  /** Stripping before splitting does not change the number of words. */
  lemma WordCountOfStrip(s: string)
    ensures |Words(Strip(s))| == |Words(s)|
    ensures RunCount(Strip(s)) == RunCount(s)
  {
    var a := SkipSpace(s, 0);
    SkipSpaceIsRun(s, 0);
    var b := TrimEnd(s, a);
    RunsSkipSpace(s, 0, a);
    RunsOfWindow(s, a, b, 0, true);
  }

  /** Counting runs in `s[a..b]` is counting them in `s` from `a`, when nothing
      but whitespace follows `b`. */
  lemma {:induction false} RunsOfWindow(s: string, a: nat, b: nat, i: nat, afterSpace: bool)
    requires a + i <= b <= |s| && AllSpace(s, b, |s|)
    ensures RunsFrom(s[a..b], i, afterSpace) == RunsFrom(s, a + i, afterSpace)
    decreases b - a - i
  {
    if a + i == b {
      RunsOfBlank(s, b, afterSpace);
    } else {
      assert s[a..b][i] == s[a + i];
      RunsOfWindow(s, a, b, i + 1, IsSpace(s[a + i]));
    }
  }

  /** Whitespace holds no run. */
  lemma {:induction false} RunsOfBlank(s: string, i: nat, afterSpace: bool)
    requires i <= |s| && AllSpace(s, i, |s|)
    ensures RunsFrom(s, i, afterSpace) == 0
    decreases |s| - i
  {
    if i < |s| {
      assert IsSpace(s[i]);
      RunsOfBlank(s, i + 1, true);
    }
  }

  /** Python's `sep.join(parts)`. */
  function Join(parts: seq<string>, sep: string): (r: string)
    ensures |parts| == 1 ==> r == parts[0]
    ensures parts == [] ==> r == []
  {
    if parts == [] then []
    else if |parts| == 1 then parts[0]
    else parts[0] + sep + Join(parts[1..], sep)
  }

  /** Total number of characters in `parts`. */
  function TotalLength(parts: seq<string>): nat {
    if parts == [] then 0 else |parts[0]| + TotalLength(parts[1..])
  }

  /** A join holds every part once and the separator between each two
      neighbouring parts, and nothing else. */
  lemma {:induction false} JoinLength(parts: seq<string>, sep: string)
    requires parts != []
    ensures |Join(parts, sep)| == TotalLength(parts) + (|parts| - 1) * |sep|
  {
    if |parts| > 1 {
      JoinLength(parts[1..], sep);
    }
  }

  /** A join, and whatever follows it, opens the way its first part does. */
  lemma JoinOpens(parts: seq<string>, sep: string, after: string, prefix: string)
    requires parts != [] && |prefix| <= |parts[0]|
    ensures StartsWith(Join(parts, sep) + after, prefix) <==> StartsWith(parts[0], prefix)
  {
    var tail := if |parts| == 1 then [] else sep + Join(parts[1..], sep);
    assert Join(parts, sep) + after == parts[0] + (tail + after);
    PrefixOfLonger(parts[0], tail + after, prefix);
  }

  predicate StartsWith(s: string, prefix: string) {
    |prefix| <= |s| && s[..|prefix|] == prefix
  }

  /** A label in front of a line moves the line's own prefix test behind it. */
  lemma LabelledStartsWith(head: string, line: string, prefix: string)
    ensures StartsWith(head + line, head + prefix) <==> StartsWith(line, prefix)
  {
    var s := head + line;
    if StartsWith(line, prefix) {
      assert s[..|head + prefix|] == head + line[..|prefix|];
    }
    if StartsWith(s, head + prefix) {
      assert line[..|prefix|] == s[|head|..|head + prefix|];
      assert s[|head|..|head + prefix|] == (head + prefix)[|head|..];
    }
  }

  /** A prefix test that fits inside `s` is unaffected by what follows `s`. */
  lemma PrefixOfLonger(s: string, rest: string, prefix: string)
    requires |prefix| <= |s|
    ensures StartsWith(s + rest, prefix) <==> StartsWith(s, prefix)
  {
    assert (s + rest)[..|prefix|] == s[..|prefix|];
  }

  /** Decimal rendering of an integer, as Python's `str(int)`. */
  function IntToString(n: int): (s: string)
    ensures s != []
    ensures n >= 0 ==> forall x :: 0 <= x < |s| ==> '0' <= s[x] <= '9'
    ensures n < 0 ==> s[0] == '-'
  {
    if n < 0 then "-" + NatToString(-n) else NatToString(n)
  }

  function NatToString(n: nat): (s: string)
    ensures s != []
    ensures forall x :: 0 <= x < |s| ==> '0' <= s[x] <= '9'
  {
    if n < 10 then [Digit(n)] else NatToString(n / 10) + [Digit(n % 10)]
  }

  /** The number a string of decimal digits denotes, read most significant
      digit first. */
  function DigitsValue(s: string): nat
    requires forall x :: 0 <= x < |s| ==> '0' <= s[x] <= '9'
  {
    if s == [] then 0
    else DigitsValue(s[..|s| - 1]) * 10 + (s[|s| - 1] as int - '0' as int)
  }

  /** The rendering of a natural number reads back as that number and has no
      leading zero. */
  lemma {:induction false} NatToStringValue(n: nat)
    ensures DigitsValue(NatToString(n)) == n
    ensures NatToString(n)[0] == '0' ==> n == 0
  {
    if n >= 10 {
      NatToStringValue(n / 10);
      var s := NatToString(n);
      assert s[..|s| - 1] == NatToString(n / 10);
    }
  }

  /** The rendering of an integer is its sign followed by the digits of its
      magnitude, which read back as that magnitude. */
  lemma IntToStringValue(n: int)
    ensures n >= 0 ==> DigitsValue(IntToString(n)) == n
    ensures n < 0 ==> |IntToString(n)| >= 2 && DigitsValue(IntToString(n)[1..]) == -n
  {
    NatToStringValue(if n < 0 then -n else n);
    if n < 0 {
      assert IntToString(n)[1..] == NatToString(-n);
    }
  }

  function Digit(d: nat): (c: char)
    requires d < 10
    ensures '0' <= c <= '9' && c as int - '0' as int == d
  {
    ('0' as int + d) as char
  }
}
