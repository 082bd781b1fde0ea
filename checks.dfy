/** The abstract word-count check and the keyword-count check. Each locates its
    section with one of the two capture patterns, measures what it captured
    and judges the measurement against an inclusive range. */
module Checks {
  import opened Text
  import opened Capture

  datatype Verdict = Pass | Fail

  /** Outcome of one measured check: either the section was not located, or what
      was found, its size and the verdict. */
  datatype Measurement<T> = NotIdentified | Measured(found: T, count: nat, verdict: Verdict)

  /** The inclusive range test every measured check applies. */
  function Judge(count: nat, lo: int, hi: int): (v: Verdict)
    ensures v == Pass <==> lo <= count <= hi
  {
    if lo <= count <= hi then Pass else Fail
  }

  /** `Abstract\s*(.*?)(Keywords|1\.\s*Introduction|\n\s*\n\s*\n)` */
  const ABSTRACT_PATTERN: Pattern :=
    Pattern("abstract", [Literal("keywords"), Heading("1.", "introduction"), BlankLines(3)])

  /** `Keywords:\s*(.*?)(1\.\s*Introduction|\n\s*\n)` */
  const KEYWORDS_PATTERN: Pattern :=
    Pattern("keywords:", [Heading("1.", "introduction"), BlankLines(2)])

  lemma PatternsWellFormed()
    ensures WellFormed(ABSTRACT_PATTERN) && WellFormed(KEYWORDS_PATTERN)
  {
    var a := ABSTRACT_PATTERN.marker;
    forall d | 0 < d < |a| ensures a[d..] != a[..|a| - d] {
      if d == 5 {
        assert a[d..][1] != a[..|a| - d][1];
      } else {
        assert a[d..][0] != a[..|a| - d][0];
      }
    }
    var k := KEYWORDS_PATTERN.marker;
    forall d | 0 < d < |k| ensures k[d..] != k[..|k| - d] {
      assert k[d..][0] != k[..|k| - d][0];
    }
  }

  // ---------------------------------------------------------------- abstract

  /** The abstract check: word count of the stripped text between the leftmost
      `Abstract` and the terminator the regular expression stops at. */
  function CheckAbstract(text: string, minWords: int, maxWords: int): (r: Measurement<string>)
    ensures r.NotIdentified? <==> !HasMatch(text, ABSTRACT_PATTERN)
    ensures r.Measured? ==>
      exists h :: IsFirstMatch(text, ABSTRACT_PATTERN, h) && r.found == Strip(Group(text, ABSTRACT_PATTERN, h))
    ensures r.Measured? ==> r.count == RunCount(r.found)
    ensures r.Measured? ==> (r.verdict == Pass <==> minWords <= r.count <= maxWords)
  {
    PatternsWellFormed();
    SearchIsFirstMatch(text, ABSTRACT_PATTERN);
    match Search(text, ABSTRACT_PATTERN)
    case None => NotIdentified
    case Some(h) =>
      var content := Strip(Group(text, ABSTRACT_PATTERN, h));
      var n := |Words(content)|;
      Measured(content, n, Judge(n, minWords, maxWords))
  }

  /** When no terminator follows the whitespace after the leftmost `Abstract` but
      a run of blank lines begins inside that whitespace, the engine backtracks
      to it and the abstract holds no words at all. */
  lemma BacktrackedAbstractIsEmpty(text: string, i: nat, minWords: int, maxWords: int)
    requires FindMarker(text, ABSTRACT_PATTERN.marker, 0) == Some(i)
    requires FindTerm(text, ABSTRACT_PATTERN.terminators, SkipSpace(text, i + |ABSTRACT_PATTERN.marker|)).None?
    requires LastTermBefore(text, ABSTRACT_PATTERN.terminators, i + |ABSTRACT_PATTERN.marker|,
      SkipSpace(text, i + |ABSTRACT_PATTERN.marker|)).Some?
    ensures CheckAbstract(text, minWords, maxWords) == Measured([], 0, Judge(0, minWords, maxWords))
  {
    var h := Search(text, ABSTRACT_PATTERN).value;
    assert h.len == 0;
    assert Group(text, ABSTRACT_PATTERN, h) == [];
    assert Strip([]) == [];
  }

  // ---------------------------------------------------------------- keywords

  predicate IsSeparator(c: char) {
    c == ',' || c == ';' || c == '\n'
  }

  /** No separator character occurs in `p`. */
  predicate SeparatorFree(p: string) {
    forall x {:trigger IsSeparator(p[x])} :: 0 <= x < |p| ==> !IsSeparator(p[x])
  }

  /** A keyword as the check reports it: non-empty, stripped, no separator inside. */
  predicate CleanKeyword(k: string) {
    && k != []
    && !IsSpace(k[0]) && !IsSpace(k[|k| - 1])
    && SeparatorFree(k)
  }

  /** First separator at or after `i` (or the end). */
  function FieldEnd(s: string, i: nat): (r: nat)
    requires i <= |s|
    ensures i <= r <= |s|
    ensures forall x {:trigger IsSeparator(s[x])} :: i <= x < r ==> !IsSeparator(s[x])
    ensures r == |s| || IsSeparator(s[r])
    decreases |s| - i
  {
    if i == |s| || IsSeparator(s[i]) then i else FieldEnd(s, i + 1)
  }

  /** End of the run of separators that starts at `i`. */
  function SeparatorRunEnd(s: string, i: nat): (r: nat)
    requires i <= |s|
    ensures i <= r <= |s|
    ensures forall x {:trigger IsSeparator(s[x])} :: i <= x < r ==> IsSeparator(s[x])
    ensures r == |s| || !IsSeparator(s[r])
    decreases |s| - i
  {
    if i == |s| || !IsSeparator(s[i]) then i else SeparatorRunEnd(s, i + 1)
  }

  /** `re.split(r"[,;\n]+", s)`: the pieces between maximal separator runs,
      including an empty first or last piece when `s` starts or ends with one. */
  function SplitOnSeparators(s: string): (pieces: seq<string>)
    ensures |pieces| >= 1
    ensures forall p :: p in pieces ==> SeparatorFree(p)
    decreases |s|
  {
    var e := FieldEnd(s, 0);
    if e == |s| then [s]
    else
      var next := SeparatorRunEnd(s, e);
      [s[..e]] + SplitOnSeparators(s[next..])
  }

  /** `[k.strip() for k in pieces if k.strip()]` */
  function TidyKeywords(pieces: seq<string>): (ks: seq<string>)
    ensures |ks| <= |pieces|
  {
    if pieces == [] then []
    else
      var k := Strip(pieces[0]);
      if k == [] then TidyKeywords(pieces[1..]) else [k] + TidyKeywords(pieces[1..])
  }

  /** Every tidied keyword is non-empty and stripped, and holds no separator when
      no piece did. */
  lemma {:induction false} TidyKeywordsClean(pieces: seq<string>)
    ensures forall k :: k in TidyKeywords(pieces) ==> k != [] && !IsSpace(k[0]) && !IsSpace(k[|k| - 1])
    ensures (forall p :: p in pieces ==> SeparatorFree(p)) ==>
      forall k :: k in TidyKeywords(pieces) ==> CleanKeyword(k)
  {
    if pieces != [] {
      TidyKeywordsClean(pieces[1..]);
      assert forall p :: p in pieces[1..] ==> p in pieces;
      if SeparatorFree(pieces[0]) {
        StripSeparatorFree(pieces[0]);
      }
    }
  }

  /** Stripping keeps a piece free of separators. */
  lemma StripSeparatorFree(p: string)
    requires SeparatorFree(p)
    ensures SeparatorFree(Strip(p))
  {
    var k := Strip(p);
    forall x | 0 <= x < |k| ensures !IsSeparator(k[x]) {
      assert k[x] in k;
      var y :| 0 <= y < |p| && p[y] == k[x];
      assert !IsSeparator(p[y]);
    }
  }

  /** The keyword list extracted from a captured keywords section. */
  function KeywordList(capture: string): (ks: seq<string>)
    ensures forall k :: k in ks ==> CleanKeyword(k)
  {
    TidyKeywordsClean(SplitOnSeparators(Strip(capture)));
    TidyKeywords(SplitOnSeparators(Strip(capture)))
  }

  /** The keyword check: number of keywords between the leftmost `Keywords:` and
      the terminator the regular expression stops at. */
  function CheckKeywords(text: string, minCount: int, maxCount: int): (r: Measurement<seq<string>>)
    ensures r.NotIdentified? <==> !HasMatch(text, KEYWORDS_PATTERN)
    ensures r.Measured? ==>
      exists h :: IsFirstMatch(text, KEYWORDS_PATTERN, h) && r.found == KeywordList(Group(text, KEYWORDS_PATTERN, h))
    ensures r.Measured? ==> r.count == |r.found| && forall k :: k in r.found ==> CleanKeyword(k)
    ensures r.Measured? ==> (r.verdict == Pass <==> minCount <= r.count <= maxCount)
  {
    PatternsWellFormed();
    SearchIsFirstMatch(text, KEYWORDS_PATTERN);
    match Search(text, KEYWORDS_PATTERN)
    case None => NotIdentified
    case Some(h) =>
      var ks := KeywordList(Group(text, KEYWORDS_PATTERN, h));
      Measured(ks, |ks|, Judge(|ks|, minCount, maxCount))
  }

  /** Keywords written as `k1, k2, ..., kn` are read back as exactly that list. */
  lemma {:induction false} KeywordsRoundTrip(ks: seq<string>)
    requires forall k :: k in ks ==> CleanKeyword(k)
    ensures KeywordList(Join(ks, ", ")) == ks
  {
    if ks == [] {
      assert Strip([]) == [];
      assert SplitOnSeparators([]) == [[]];
    } else {
      JoinEnds(ks);
      var j := Join(ks, ", ");
      StripTidy(j);
      assert [] + j == j;
      SplitJoined([], ks);
    }
  }

  /** The joined list begins and ends with a non-space character. */
  lemma {:induction false} JoinEnds(ks: seq<string>)
    requires ks != [] && forall i :: 0 <= i < |ks| ==> CleanKeyword(ks[i])
    ensures var j := Join(ks, ", "); j != [] && !IsSpace(j[0]) && !IsSpace(j[|j| - 1])
  {
    assert CleanKeyword(ks[0]);
    if |ks| > 1 {
      JoinEnds(ks[1..]);
      var j := Join(ks, ", ");
      var rest := Join(ks[1..], ", ");
      assert j == ks[0] + ", " + rest;
      assert j[0] == ks[0][0];
      assert j[|j| - 1] == rest[|rest| - 1];
    }
  }

  /** Splitting and tidying `lead + k1, k2, ..., kn` yields `k1, ..., kn`, where
      `lead` is empty or a single blank. */
  lemma {:induction false} SplitJoined(lead: string, ks: seq<string>)
    requires lead == [] || lead == [' ']
    requires ks != [] && forall k :: k in ks ==> CleanKeyword(k)
    ensures TidyKeywords(SplitOnSeparators(lead + Join(ks, ", "))) == ks
    decreases |ks|
  {
    assert ks[0] in ks;
    if |ks| == 1 {
      SplitJoinedOne(lead, ks[0]);
      assert ks == [ks[0]];
    } else {
      assert forall k :: k in ks[1..] ==> k in ks;
      SplitJoined([' '], ks[1..]);
      assert [' '] + Join(ks[1..], ", ") == " " + Join(ks[1..], ", ");
      SplitJoinedStep(lead, ks[0], ks[1..]);
      assert [ks[0]] + ks[1..] == ks;
    }
  }

  lemma SplitJoinedOne(lead: string, k: string)
    requires lead == [] || lead == [' ']
    requires CleanKeyword(k)
    ensures TidyKeywords(SplitOnSeparators(lead + Join([k], ", "))) == [k]
  {
    StripLead(lead, k);
    NoSeparatorAfterLead(lead, k);
    SplitField(lead + k);
    TidyOne(lead + k);
  }

  /** One keyword in front of a list that already reads back correctly. */
  lemma SplitJoinedStep(lead: string, k: string, ks: seq<string>)
    requires lead == [] || lead == [' ']
    requires CleanKeyword(k) && ks != []
    requires TidyKeywords(SplitOnSeparators(" " + Join(ks, ", "))) == ks
    ensures TidyKeywords(SplitOnSeparators(lead + Join([k] + ks, ", "))) == [k] + ks
  {
    StripLead(lead, k);
    NoSeparatorAfterLead(lead, k);
    var rest := Join(ks, ", ");
    JoinCons(k, ks);
    Regroup(lead, k, ", ", rest);
    ReadFieldThenComma(lead + k, rest, ks);
  }

  lemma ReadFieldThenComma(p: string, rest: string, ks: seq<string>)
    requires SeparatorFree(p)
    requires Strip(p) != []
    requires TidyKeywords(SplitOnSeparators(" " + rest)) == ks
    ensures TidyKeywords(SplitOnSeparators(p + ", " + rest)) == [Strip(p)] + ks
  {
    SplitFieldThenComma(p, rest);
    TidyCons(p, SplitOnSeparators(" " + rest));
  }

  lemma Regroup(a: string, b: string, c: string, d: string)
    ensures a + (b + c + d) == (a + b) + c + d
  {
  }

  lemma JoinCons(k: string, ks: seq<string>)
    requires ks != []
    ensures Join([k] + ks, ", ") == k + ", " + Join(ks, ", ")
  {
    assert ([k] + ks)[1..] == ks;
  }

  lemma TidyOne(p: string)
    requires Strip(p) != []
    ensures TidyKeywords([p]) == [Strip(p)]
  {
    assert [p][1..] == [];
  }

  lemma TidyCons(p: string, ps: seq<string>)
    requires Strip(p) != []
    ensures TidyKeywords([p] + ps) == [Strip(p)] + TidyKeywords(ps)
  {
    assert ([p] + ps)[1..] == ps;
  }

  lemma NoSeparatorAfterLead(lead: string, k: string)
    requires lead == [] || lead == [' ']
    requires CleanKeyword(k)
    ensures SeparatorFree(lead + k)
  {
    var s := lead + k;
    forall x | 0 <= x < |s| ensures !IsSeparator(s[x]) {
      if x >= |lead| { assert s[x] == k[x - |lead|]; } else { assert s[x] == lead[x]; }
    }
  }

  /** A string without separators is a single piece. */
  lemma SplitField(p: string)
    requires SeparatorFree(p)
    ensures SplitOnSeparators(p) == [p]
  {
    assert FieldEnd(p, 0) == |p|;
  }

  /** A separator-free piece followed by `", "` is split off on its own. */
  lemma SplitFieldThenComma(p: string, rest: string)
    requires SeparatorFree(p)
    ensures SplitOnSeparators(p + ", " + rest) == [p] + SplitOnSeparators(" " + rest)
  {
    var s := p + ", " + rest;
    var e := |p|;
    forall x | 0 <= x < e ensures !IsSeparator(s[x]) {
      assert s[x] == p[x];
    }
    assert s[e] == ',';
    FieldEndAt(s, 0, e);
    assert s[e + 1] == ' ';
    assert SeparatorRunEnd(s, e + 1) == e + 1;
    assert s[..e] == p;
    assert s[e + 1..] == " " + rest;
  }

  lemma FieldEndAt(s: string, i: nat, e: nat)
    requires i <= e < |s| && IsSeparator(s[e])
    requires forall x {:trigger IsSeparator(s[x])} :: i <= x < e ==> !IsSeparator(s[x])
    ensures FieldEnd(s, i) == e
  {
  }

  lemma StripLead(lead: string, k: string)
    requires lead == [] || lead == [' ']
    requires CleanKeyword(k)
    ensures Strip(lead + k) == k
  {
    if lead == [] {
      assert lead + k == k;
      StripTidy(k);
    } else {
      StripLeadingBlank(k);
    }
  }

  // ---------------------------------------------------------------- split and tidy in general

  /** A non-empty run made only of separators. */
  predicate SeparatorRun(r: string) {
    r != [] && forall x {:trigger IsSeparator(r[x])} :: 0 <= x < |r| ==> IsSeparator(r[x])
  }

  /** The pieces with the given runs put back between them. */
  function Interleave(pieces: seq<string>, runs: seq<string>): string
    requires |pieces| == |runs| + 1
    decreases |runs|
  {
    if runs == [] then pieces[0]
    else pieces[0] + runs[0] + Interleave(pieces[1..], runs[1..])
  }

  /** The separator runs `re.split(r"[,;\n]+", s)` cuts out, in order. */
  function SeparatorRuns(s: string): seq<string>
    decreases |s|
  {
    var e := FieldEnd(s, 0);
    if e == |s| then []
    else
      var next := SeparatorRunEnd(s, e);
      [s[e..next]] + SeparatorRuns(s[next..])
  }

  /** The split loses nothing: putting the cut-out separator runs back between
      the pieces gives the input. Every cut-out run is a non-empty run of
      separators, and only the first and the last piece can be empty. */
  lemma {:induction false} SplitReassembles(s: string)
    ensures |SplitOnSeparators(s)| == |SeparatorRuns(s)| + 1
    ensures Interleave(SplitOnSeparators(s), SeparatorRuns(s)) == s
    ensures forall r :: r in SeparatorRuns(s) ==> SeparatorRun(r)
    ensures forall i :: 0 < i < |SplitOnSeparators(s)| - 1 ==> SplitOnSeparators(s)[i] != []
  {
    SplitRejoins(s);
    RunsAreSeparatorRuns(s);
    InnerPiecesNonEmpty(s);
  }

  lemma {:induction false} SplitRejoins(s: string)
    ensures |SplitOnSeparators(s)| == |SeparatorRuns(s)| + 1
    ensures Interleave(SplitOnSeparators(s), SeparatorRuns(s)) == s
    decreases |s|
  {
    var e := FieldEnd(s, 0);
    if e < |s| {
      var next := SeparatorRunEnd(s, e);
      var rest := s[next..];
      SplitRejoins(rest);
      InterleaveCons(s[..e], s[e..next], SplitOnSeparators(rest), SeparatorRuns(rest));
      ThreeSlices(s, e, next);
    }
  }

  lemma InterleaveCons(p: string, r: string, pieces: seq<string>, runs: seq<string>)
    requires |pieces| == |runs| + 1
    ensures Interleave([p] + pieces, [r] + runs) == p + r + Interleave(pieces, runs)
  {
    assert ([p] + pieces)[1..] == pieces;
    assert ([r] + runs)[1..] == runs;
  }

  lemma ThreeSlices(s: string, a: nat, b: nat)
    requires a <= b <= |s|
    ensures s[..a] + s[a..b] + s[b..] == s
  {
  }

  lemma {:induction false} RunsAreSeparatorRuns(s: string)
    ensures forall r :: r in SeparatorRuns(s) ==> SeparatorRun(r)
    decreases |s|
  {
    var e := FieldEnd(s, 0);
    if e < |s| {
      var next := SeparatorRunEnd(s, e);
      RunsAreSeparatorRuns(s[next..]);
      var r := s[e..next];
      forall x | 0 <= x < |r| ensures IsSeparator(r[x]) {
        assert r[x] == s[e + x];
      }
      assert SeparatorRun(r);
    }
  }

  lemma {:induction false} InnerPiecesNonEmpty(s: string)
    ensures forall i :: 0 < i < |SplitOnSeparators(s)| - 1 ==> SplitOnSeparators(s)[i] != []
    decreases |s|
  {
    var e := FieldEnd(s, 0);
    if e < |s| {
      var next := SeparatorRunEnd(s, e);
      var rest := s[next..];
      InnerPiecesNonEmpty(rest);
      var tail := SplitOnSeparators(rest);
      assert SplitOnSeparators(s) == [s[..e]] + tail;
      if 1 < |tail| {
        assert FieldEnd(rest, 0) < |rest|;
        assert rest[0] == s[next];
        assert tail[0] == rest[..FieldEnd(rest, 0)];
      }
    }
  }

  /** Splitting undoes `Interleave`: separator-free pieces, of which only the
      first and the last may be empty, joined by non-empty separator runs, are
      split back into exactly those pieces and runs. */
  lemma {:induction false} SplitInterleave(pieces: seq<string>, runs: seq<string>)
    requires |pieces| == |runs| + 1
    requires forall p :: p in pieces ==> SeparatorFree(p)
    requires forall r :: r in runs ==> SeparatorRun(r)
    requires forall i :: 0 < i < |pieces| - 1 ==> pieces[i] != []
    ensures SplitOnSeparators(Interleave(pieces, runs)) == pieces
    ensures SeparatorRuns(Interleave(pieces, runs)) == runs
    decreases |runs|
  {
    if runs == [] {
      assert pieces[0] in pieces;
      SplitField(pieces[0]);
      assert FieldEnd(pieces[0], 0) == |pieces[0]|;
      assert pieces == [pieces[0]];
    } else {
      var p := pieces[0];
      var r := runs[0];
      var rest := Interleave(pieces[1..], runs[1..]);
      assert p in pieces && r in runs;
      assert forall q :: q in pieces[1..] ==> q in pieces;
      assert forall q :: q in runs[1..] ==> q in runs;
      RestStartsClean(pieces, runs);
      CutFirstPiece(p, r, rest);
      SplitInterleave(pieces[1..], runs[1..]);
      assert [p] + pieces[1..] == pieces;
      assert [r] + runs[1..] == runs;
    }
  }

  /** What follows the first run of an interleaving does not start with a
      separator. */
  lemma RestStartsClean(pieces: seq<string>, runs: seq<string>)
    requires |pieces| == |runs| + 1 && runs != []
    requires forall p :: p in pieces ==> SeparatorFree(p)
    requires forall i :: 0 < i < |pieces| - 1 ==> pieces[i] != []
    ensures var rest := Interleave(pieces[1..], runs[1..]); rest == [] || !IsSeparator(rest[0])
  {
    assert pieces[1] in pieces;
    if pieces[1] != [] {
      InterleaveStart(pieces[1..], runs[1..]);
    } else {
      assert |runs| == 1;
    }
  }

  /** A separator-free piece, a separator run and a rest that does not start
      with a separator: the split cuts exactly that piece and that run. */
  lemma CutFirstPiece(p: string, r: string, rest: string)
    requires SeparatorFree(p) && SeparatorRun(r)
    requires rest == [] || !IsSeparator(rest[0])
    ensures SplitOnSeparators(p + r + rest) == [p] + SplitOnSeparators(rest)
    ensures SeparatorRuns(p + r + rest) == [r] + SeparatorRuns(rest)
  {
    var s := p + r + rest;
    var e := |p|;
    var next := e + |r|;
    forall x | 0 <= x < e ensures !IsSeparator(s[x]) {
      assert s[x] == p[x];
    }
    assert s[e] == r[0];
    FieldEndAt(s, 0, e);
    forall x | e <= x < next ensures IsSeparator(s[x]) {
      assert s[x] == r[x - e];
    }
    if next < |s| {
      assert s[next] == rest[0];
    }
    SeparatorRunEndAt(s, e, next);
    assert s[..e] == p;
    assert s[e..next] == r;
    assert s[next..] == rest;
  }

  /** An interleaving starts with its first piece. */
  lemma InterleaveStart(pieces: seq<string>, runs: seq<string>)
    requires |pieces| == |runs| + 1 && pieces[0] != []
    ensures Interleave(pieces, runs) != [] && Interleave(pieces, runs)[0] == pieces[0][0]
  {
    if runs != [] {
      assert Interleave(pieces, runs) == pieces[0] + runs[0] + Interleave(pieces[1..], runs[1..]);
    }
  }

  lemma SeparatorRunEndAt(s: string, i: nat, e: nat)
    requires i <= e <= |s|
    requires forall x {:trigger IsSeparator(s[x])} :: i <= x < e ==> IsSeparator(s[x])
    requires e == |s| || !IsSeparator(s[e])
    ensures SeparatorRunEnd(s, i) == e
  {
  }

  /** Tidying works piece by piece: the keywords of two lists of pieces, one after
      the other, are the keywords of each list, in the same order. */
  lemma {:induction false} TidyKeywordsAppend(a: seq<string>, b: seq<string>)
    ensures TidyKeywords(a + b) == TidyKeywords(a) + TidyKeywords(b)
    decreases |a|
  {
    if a != [] {
      assert (a + b)[0] == a[0];
      assert (a + b)[1..] == a[1..] + b;
      TidyKeywordsAppend(a[1..], b);
      var k := Strip(a[0]);
      if k != [] {
        assert [k] + (TidyKeywords(a[1..]) + TidyKeywords(b)) == ([k] + TidyKeywords(a[1..])) + TidyKeywords(b);
      }
    } else {
      assert a + b == b;
    }
  }

  /** A single piece yields its stripped text, or nothing when that is empty. */
  lemma TidyKeywordsOne(p: string)
    ensures TidyKeywords([p]) == if Strip(p) == [] then [] else [Strip(p)]
  {
    assert [p][1..] == [];
  }

  /** Keywords separated by any mix of `,`, `;` and line breaks are read back as
      exactly those keywords, in order. */
  lemma KeywordsAnySeparators(ks: seq<string>, runs: seq<string>)
    requires |ks| == |runs| + 1
    requires forall k :: k in ks ==> CleanKeyword(k)
    requires forall r :: r in runs ==> SeparatorRun(r)
    ensures KeywordList(Interleave(ks, runs)) == ks
  {
    var s := Interleave(ks, runs);
    assert ks[0] in ks && ks[|ks| - 1] in ks;
    InterleaveStart(ks, runs);
    InterleaveEnd(ks, runs);
    StripTidy(s);
    forall i | 0 < i < |ks| - 1 ensures ks[i] != [] {
      assert ks[i] in ks;
    }
    SplitInterleave(ks, runs);
    TidyCleanKeywords(ks);
  }

  /** An interleaving ends with its last piece. */
  lemma {:induction false} InterleaveEnd(pieces: seq<string>, runs: seq<string>)
    requires |pieces| == |runs| + 1 && pieces[|pieces| - 1] != []
    ensures var s := Interleave(pieces, runs);
      s != [] && s[|s| - 1] == pieces[|pieces| - 1][|pieces[|pieces| - 1]| - 1]
    decreases |runs|
  {
    if runs != [] {
      InterleaveEnd(pieces[1..], runs[1..]);
    }
  }

  /** Clean keywords pass through tidying unchanged. */
  lemma {:induction false} TidyCleanKeywords(ks: seq<string>)
    requires forall k :: k in ks ==> CleanKeyword(k)
    ensures TidyKeywords(ks) == ks
  {
    if ks != [] {
      assert ks[0] in ks;
      StripTidy(ks[0]);
      assert forall k :: k in ks[1..] ==> k in ks;
      TidyCleanKeywords(ks[1..]);
      assert [ks[0]] + ks[1..] == ks;
    }
  }

  // ---------------------------------------------------------------- messages

  /** The text Python would show for a range `lo-hi`. */
  function RangeText(lo: int, hi: int): string {
    IntToString(lo) + "-" + IntToString(hi)
  }

  /** A message line: the verdict tag followed by the explanation. */
  function Tagged(v: Verdict, body: string): (m: string)
    ensures StartsWith(m, "PASS: ") <==> v == Pass
    ensures StartsWith(m, "PASS: ") || StartsWith(m, "FAIL: ")
  {
    var tag := if v == Pass then "PASS: " else "FAIL: ";
    assert (tag + body)[..6] == tag;
    assert tag[0] == (if v == Pass then 'P' else 'F');
    tag + body
  }

  /** The abstract check's message: a PASS line exactly when the abstract was
      located and its word count lies in the range; otherwise a FAIL line. */
  function AbstractMessage(r: Measurement<string>, minWords: int, maxWords: int): (m: string)
    ensures StartsWith(m, "PASS: ") <==> r.Measured? && r.verdict == Pass
    ensures StartsWith(m, "PASS: ") || StartsWith(m, "FAIL: ")
  {
    match r
    case NotIdentified =>
      Tagged(Fail, "Abstract section not clearly identified or missing.")
    case Measured(found, n, Pass) =>
      Tagged(Pass, "Abstract word count (" + IntToString(n) + ") is within the range "
        + RangeText(minWords, maxWords) + ".")
    case Measured(found, n, Fail) =>
      Tagged(Fail, "Abstract word count (" + IntToString(n) + ") is outside the range "
        + RangeText(minWords, maxWords) + ". Abstract content found: '"
        + found[..if |found| < 100 then |found| else 100] + "...'")
  }

  /** `check_abstract_word_count`: PASS exactly when the located abstract has
      between `minWords` and `maxWords` words, inclusive. */
  function CheckAbstractWordCount(text: string, minWords: int, maxWords: int): (m: string)
    ensures StartsWith(m, "PASS: ") <==>
      HasMatch(text, ABSTRACT_PATTERN) && minWords <= CheckAbstract(text, minWords, maxWords).count <= maxWords
    ensures !HasMatch(text, ABSTRACT_PATTERN) ==>
      m == Tagged(Fail, "Abstract section not clearly identified or missing.")
  {
    AbstractMessage(CheckAbstract(text, minWords, maxWords), minWords, maxWords)
  }

  /** A simplified rendering of a Python list of strings: `['a', 'b']`. */
  function ListText(ks: seq<string>): string {
    "[" + Join(Quoted(ks), ", ") + "]"
  }

  function Quoted(ks: seq<string>): (qs: seq<string>)
    ensures |qs| == |ks|
  {
    if ks == [] then [] else ["'" + ks[0] + "'"] + Quoted(ks[1..])
  }

  /** The keyword check's message: a PASS line exactly when the keywords were
      located and their number lies in the range; otherwise a FAIL line. */
  function KeywordsMessage(r: Measurement<seq<string>>, minCount: int, maxCount: int): (m: string)
    ensures StartsWith(m, "PASS: ") <==> r.Measured? && r.verdict == Pass
    ensures StartsWith(m, "PASS: ") || StartsWith(m, "FAIL: ")
  {
    match r
    case NotIdentified =>
      Tagged(Fail, "Keywords section not clearly identified or missing.")
    case Measured(ks, n, Pass) =>
      Tagged(Pass, "Number of keywords (" + IntToString(n) + ") is within the range "
        + RangeText(minCount, maxCount) + ". Keywords: " + ListText(ks))
    case Measured(ks, n, Fail) =>
      Tagged(Fail, "Number of keywords (" + IntToString(n) + ") is outside the range "
        + RangeText(minCount, maxCount) + ". Keywords: " + ListText(ks))
  }

  /** `check_keywords_count`: PASS exactly when the located keyword list has
      between `minCount` and `maxCount` entries, inclusive. */
  function CheckKeywordsCount(text: string, minCount: int, maxCount: int): (m: string)
    ensures StartsWith(m, "PASS: ") <==>
      HasMatch(text, KEYWORDS_PATTERN) && minCount <= |CheckKeywords(text, minCount, maxCount).found| <= maxCount
    ensures !HasMatch(text, KEYWORDS_PATTERN) ==>
      m == Tagged(Fail, "Keywords section not clearly identified or missing.")
  {
    KeywordsMessage(CheckKeywords(text, minCount, maxCount), minCount, maxCount)
  }
}
