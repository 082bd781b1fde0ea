/** The two section-locating regular expressions of the checker,
      Abstract\s*(.*?)(Keywords|1\.\s*Introduction|\n\s*\n\s*\n)
      Keywords:\s*(.*?)(1\.\s*Introduction|\n\s*\n)
    searched with `re.search` under IGNORECASE and DOTALL. Both have the shape
    "marker, greedy whitespace, lazy capture, one of several terminators".

    `Valid` and `IsFirstMatch` give the regular-expression meaning directly: a
    candidate match is a start position, a length for the greedy `\s*` and a
    length for the lazy capture, and the engine returns the candidate it tries
    first (leftmost start, then longest `\s*`, then shortest capture). `Search`
    is a direct scanner, and `SearchIsFirstMatch` proves that the two agree. */
module Capture {
  import opened Text

  datatype Option<T> = None | Some(value: T)

  /** One alternative of the terminating group. All literals are lower case. */
  datatype Terminator =
    | Literal(word: string)                   // e.g. `Keywords`
    | Heading(number: string, title: string)  // e.g. `1\.\s*Introduction`
    | BlankLines(newlines: nat)               // `\n\s*\n` (2) or `\n\s*\n\s*\n` (3)

  /** `marker\s*(.*?)(t1|t2|...)`; the marker is lower case. */
  datatype Pattern = Pattern(marker: string, terminators: seq<Terminator>)

  /** A candidate match: where the marker starts, how many characters the
      greedy `\s*` takes, and how many the lazy group takes. */
  datatype Hit = Hit(at: nat, skip: nat, len: nat)

  /** How many newline characters `t[lo..hi]` holds. */
  function NewlinesIn(t: string, lo: nat, hi: nat): nat
    requires lo <= hi <= |t|
    decreases hi - lo
  {
    if lo == hi then 0 else (if t[lo] == '\n' then 1 else 0) + NewlinesIn(t, lo + 1, hi)
  }

  /** Whether terminator `term` matches at position `p` of `t`. For `Heading` the
      title starts with a non-space letter, and for `BlankLines` a newline is
      whitespace, so trying the maximal whitespace run decides the match. */
  predicate TerminatorAt(t: string, term: Terminator, p: nat) {
    match term
    case Literal(w) => MatchesAt(t, p, w)
    case Heading(n, w) =>
      MatchesAt(t, p, n) && MatchesAt(t, SkipSpace(t, p + |n|), w)
    case BlankLines(k) =>
      p < |t| && t[p] == '\n' && NewlinesIn(t, p, SkipSpace(t, p)) >= k
  }

  /** Some alternative of the terminating group matches at `p`. */
  predicate TermAt(t: string, terms: seq<Terminator>, p: nat) {
    terms != [] && (TerminatorAt(t, terms[0], p) || TermAt(t, terms[1..], p))
  }

  function GroupStart(pat: Pattern, h: Hit): nat {
    h.at + |pat.marker| + h.skip
  }

  /** `h` describes a complete match of `pat` in `t`. */
  ghost predicate Valid(t: string, pat: Pattern, h: Hit) {
    && MatchesAt(t, h.at, pat.marker)
    && GroupStart(pat, h) + h.len <= |t|
    && AllSpace(t, h.at + |pat.marker|, GroupStart(pat, h))
    && TermAt(t, pat.terminators, GroupStart(pat, h) + h.len)
  }

  /** The backtracking engine tries `h1` before `h2`: `re.search` scans start
      positions left to right; at one start the greedy `\s*` gives characters
      back one at a time; for one `\s*` length the lazy group grows one at a time. */
  ghost predicate TriedBefore(h1: Hit, h2: Hit) {
    || h1.at < h2.at
    || (h1.at == h2.at && h1.skip > h2.skip)
    || (h1.at == h2.at && h1.skip == h2.skip && h1.len < h2.len)
  }

  /** `h` is the match `re.search` reports. */
  ghost predicate IsFirstMatch(t: string, pat: Pattern, h: Hit) {
    Valid(t, pat, h) && forall h' :: Valid(t, pat, h') ==> !TriedBefore(h', h)
  }

  ghost predicate HasMatch(t: string, pat: Pattern) {
    exists h :: Valid(t, pat, h)
  }

  /** The marker cannot overlap a second copy of itself. */
  predicate SelfDisjoint(m: string) {
    forall d :: 0 < d < |m| ==> m[d..] != m[..|m| - d]
  }

  /** The assumptions under which the leftmost marker decides the search. */
  predicate WellFormed(pat: Pattern) {
    |pat.marker| > 0 && !IsSpace(pat.marker[0]) && SelfDisjoint(pat.marker)
  }

  /** Leftmost occurrence of `m` at or after `from`. */
  function FindMarker(t: string, m: string, from: nat): (r: Option<nat>)
    requires from <= |t|
    ensures r.Some? ==> from <= r.value && MatchesAt(t, r.value, m)
    ensures r.Some? ==> forall i :: from <= i < r.value ==> !MatchesAt(t, i, m)
    ensures r.None? ==> forall i :: from <= i ==> !MatchesAt(t, i, m)
    decreases |t| - from
  {
    if MatchesAt(t, from, m) then Some(from)
    else if from == |t| then None
    else FindMarker(t, m, from + 1)
  }

  /** No alternative of the terminating group matches anywhere in `[lo, hi)`. */
  ghost predicate NoTermIn(t: string, terms: seq<Terminator>, lo: nat, hi: nat) {
    forall p :: lo <= p < hi ==> !TermAt(t, terms, p)
  }

  lemma NoTermInExtend(t: string, terms: seq<Terminator>, lo: nat, hi: nat)
    requires NoTermIn(t, terms, lo, hi) && !TermAt(t, terms, hi)
    ensures NoTermIn(t, terms, lo, hi + 1)
  {
  }

  /** Earliest terminator at or after `from`. */
  function FindTerm(t: string, terms: seq<Terminator>, from: nat): (r: Option<nat>)
    requires from <= |t|
    ensures r.Some? ==> from <= r.value <= |t|
    decreases |t| - from
  {
    if TermAt(t, terms, from) then Some(from)
    else if from == |t| then None
    else FindTerm(t, terms, from + 1)
  }

  /** `FindTerm` reports the earliest terminator position, and none only when
      no position from `from` to the end of the text has one. */
  lemma {:induction false} FindTermIsEarliest(t: string, terms: seq<Terminator>, from: nat)
    requires from <= |t|
    ensures FindTerm(t, terms, from).Some? ==>
      TermAt(t, terms, FindTerm(t, terms, from).value) && NoTermIn(t, terms, from, FindTerm(t, terms, from).value)
    ensures FindTerm(t, terms, from).None? ==> NoTermIn(t, terms, from, |t| + 1)
    decreases |t| - from
  {
    if !TermAt(t, terms, from) && from < |t| {
      FindTermIsEarliest(t, terms, from + 1);
    }
  }

  /** Latest terminator in `[lo, hi)`. */
  function LastTermBefore(t: string, terms: seq<Terminator>, lo: nat, hi: nat): (r: Option<nat>)
    requires lo <= hi <= |t|
    ensures r.Some? ==> lo <= r.value < hi
    decreases hi
  {
    if lo == hi then None
    else if TermAt(t, terms, hi - 1) then Some(hi - 1)
    else LastTermBefore(t, terms, lo, hi - 1)
  }

  /** `LastTermBefore` reports the latest terminator position in `[lo, hi)`, and
      none only when that range has none. */
  lemma {:induction false} LastTermBeforeIsLatest(t: string, terms: seq<Terminator>, lo: nat, hi: nat)
    requires lo <= hi <= |t|
    ensures LastTermBefore(t, terms, lo, hi).Some? ==>
      TermAt(t, terms, LastTermBefore(t, terms, lo, hi).value)
      && NoTermIn(t, terms, LastTermBefore(t, terms, lo, hi).value + 1, hi)
    ensures LastTermBefore(t, terms, lo, hi).None? ==> NoTermIn(t, terms, lo, hi)
    decreases hi
  {
    if lo < hi && !TermAt(t, terms, hi - 1) {
      var r := LastTermBefore(t, terms, lo, hi - 1);
      LastTermBeforeIsLatest(t, terms, lo, hi - 1);
      NoTermInExtend(t, terms, if r.Some? then r.value + 1 else lo, hi - 1);
    }
  }

  /** The scanner: find the leftmost marker, take the whole whitespace run after
      it and look for the earliest terminator from there. If there is none, the
      engine backtracks into the whitespace run; only a terminator that begins
      inside that run (a run of blank lines) can then match, with an empty group,
      and the last such position is the first one tried. */
  function Search(t: string, pat: Pattern): (r: Option<Hit>)
    ensures r.Some? ==> Valid(t, pat, r.value)
  {
    match FindMarker(t, pat.marker, 0)
    case None => None
    case Some(i) => SearchFrom(t, pat, i)
  }

  /** The scanner's work once the leftmost marker was found at `i`. */
  function SearchFrom(t: string, pat: Pattern, i: nat): (r: Option<Hit>)
    requires MatchesAt(t, i, pat.marker)
    ensures r.Some? ==> Valid(t, pat, r.value) && r.value.at == i
  {
    var b := i + |pat.marker|;
    var s := SkipSpace(t, b);
    match FindTerm(t, pat.terminators, s)
    case Some(p) =>
      FindTermIsEarliest(t, pat.terminators, s);
      FoundHitIsValid(t, pat, i, s, p);
      Some(Hit(i, s - b, p - s))
    case None =>
      match LastTermBefore(t, pat.terminators, b, s)
      case Some(p) =>
        LatestTerm(t, pat.terminators, b, s, p);
        FoundHitIsValid(t, pat, i, p, p);
        Some(Hit(i, p - b, 0))
      case None => None
  }

  /** A marker at `i`, whitespace up to `g` and a terminator at `p` from there
      make a complete match. */
  lemma FoundHitIsValid(t: string, pat: Pattern, i: nat, g: nat, p: nat)
    requires MatchesAt(t, i, pat.marker)
    requires i + |pat.marker| <= g <= SkipSpace(t, i + |pat.marker|) && g <= p <= |t|
    requires TermAt(t, pat.terminators, p)
    ensures Valid(t, pat, Hit(i, g - (i + |pat.marker|), p - g))
  {
    SkipSpaceIsRun(t, i + |pat.marker|);
  }

  /** The captured group of a match. */
  function Group(t: string, pat: Pattern, h: Hit): string
    requires GroupStart(pat, h) + h.len <= |t|
  {
    t[GroupStart(pat, h)..GroupStart(pat, h) + h.len]
  }

  /** Two overlapping occurrences of a marker give it a border. */
  lemma OverlapGivesBorder(t: string, m: string, i: nat, j: nat)
    requires i < j
    requires MatchesAt(t, i, m) && MatchesAt(t, j, m)
    ensures j < i + |m| ==> m[j - i..] == m[..|m| - (j - i)]
  {
    if j < i + |m| {
      var d := j - i;
      forall x | 0 <= x < |m| - d
        ensures m[d..][x] == m[..|m| - d][x]
      {
        assert Lower(t[i + (d + x)]) == m[d + x];
        assert Lower(t[j + x]) == m[x];
      }
    }
  }

  /** A later marker occurrence starts beyond the whitespace run after an earlier one. */
  lemma LaterMarkerBeyondRun(t: string, pat: Pattern, i: nat, j: nat)
    requires WellFormed(pat) && i < j
    requires MatchesAt(t, i, pat.marker) && MatchesAt(t, j, pat.marker)
    ensures SkipSpace(t, i + |pat.marker|) <= j
  {
    OverlapGivesBorder(t, pat.marker, i, j);
    SkipSpaceIsRun(t, i + |pat.marker|);
    assert Lower(t[j + 0]) == pat.marker[0];
    LowerKeepsSpace(t[j]);
  }

  /** Where candidate matches can start their group, relative to a marker at
      `i` whose whitespace run ends at `s`: those starting at `i` take at most
      that run, and all others start later and begin their group beyond it. */
  ghost predicate CandidatesBounded(t: string, pat: Pattern, i: nat, s: nat) {
    && (forall h :: Valid(t, pat, h) && h.at == i ==> GroupStart(pat, h) <= s)
    && (forall h :: Valid(t, pat, h) && h.at != i ==> h.at > i && s <= GroupStart(pat, h))
  }

  /** Candidate matches are bounded by the leftmost marker's whitespace run. */
  lemma CandidateBounds(t: string, pat: Pattern, i: nat)
    requires WellFormed(pat)
    requires FindMarker(t, pat.marker, 0) == Some(i)
    ensures CandidatesBounded(t, pat, i, SkipSpace(t, i + |pat.marker|))
  {
    var b := i + |pat.marker|;
    forall h | Valid(t, pat, h) && h.at == i
      ensures GroupStart(pat, h) <= SkipSpace(t, b)
    {
      SpaceRunWithin(t, b, b + h.skip);
    }
    forall h | Valid(t, pat, h) && h.at != i
      ensures h.at > i && SkipSpace(t, b) <= GroupStart(pat, h)
    {
      LaterMarkerBeyondRun(t, pat, i, h.at);
    }
  }

  /** Case 1 of the scanner: a terminator after the whitespace run. */
  lemma ForwardHitIsFirst(t: string, pat: Pattern, i: nat, p: nat)
    requires WellFormed(pat)
    requires FindMarker(t, pat.marker, 0) == Some(i)
    requires SkipSpace(t, i + |pat.marker|) <= p
    requires FindTerm(t, pat.terminators, SkipSpace(t, i + |pat.marker|)) == Some(p)
    ensures IsFirstMatch(t, pat, Hit(i, SkipSpace(t, i + |pat.marker|) - (i + |pat.marker|), p - SkipSpace(t, i + |pat.marker|)))
  {
    var s := SkipSpace(t, i + |pat.marker|);
    ForwardFacts(t, pat, i, p);
    CandidateBounds(t, pat, i);
    ForwardOrder(t, pat, i, s, p);
  }

  /** What the scanner established in case 1, in the form `ForwardOrder` uses. */
  lemma ForwardFacts(t: string, pat: Pattern, i: nat, p: nat)
    requires FindMarker(t, pat.marker, 0) == Some(i)
    requires SkipSpace(t, i + |pat.marker|) <= p
    requires FindTerm(t, pat.terminators, SkipSpace(t, i + |pat.marker|)) == Some(p)
    ensures MatchesAt(t, i, pat.marker) && p <= |t|
    ensures AllSpace(t, i + |pat.marker|, SkipSpace(t, i + |pat.marker|))
    ensures TermAt(t, pat.terminators, p)
    ensures NoTermIn(t, pat.terminators, SkipSpace(t, i + |pat.marker|), p)
  {
    SkipSpaceIsRun(t, i + |pat.marker|);
    FindTermIsEarliest(t, pat.terminators, SkipSpace(t, i + |pat.marker|));
  }

  /** The ordering argument of case 1, on the facts the scanner established. */
  lemma ForwardOrder(t: string, pat: Pattern, i: nat, s: nat, p: nat)
    requires MatchesAt(t, i, pat.marker)
    requires i + |pat.marker| <= s <= p <= |t|
    requires AllSpace(t, i + |pat.marker|, s)
    requires TermAt(t, pat.terminators, p)
    requires NoTermIn(t, pat.terminators, s, p)
    requires CandidatesBounded(t, pat, i, s)
    ensures IsFirstMatch(t, pat, Hit(i, s - (i + |pat.marker|), p - s))
  {
    var hit := Hit(i, s - (i + |pat.marker|), p - s);
    assert GroupStart(pat, hit) == s;
    forall h | Valid(t, pat, h) ensures !TriedBefore(h, hit) {
      if h.at == i && h.skip == hit.skip {
        TermNotBefore(t, pat.terminators, s, p, s + h.len);
      }
    }
  }

  /** With no terminator in `[s, p)`, one at `e >= s` lies at or after `p`. */
  lemma TermNotBefore(t: string, terms: seq<Terminator>, s: nat, p: nat, e: nat)
    requires TermAt(t, terms, e) && s <= e
    requires NoTermIn(t, terms, s, p)
    ensures p <= e
  {
    if e < p {
      NoTermAt(t, terms, s, p, e);
    }
  }

  lemma NoTermAt(t: string, terms: seq<Terminator>, lo: nat, hi: nat, e: nat)
    requires NoTermIn(t, terms, lo, hi) && lo <= e < hi
    ensures !TermAt(t, terms, e)
  {
  }

  /** Case 2: no terminator after the run, but one starting inside it. */
  lemma BacktrackHitIsFirst(t: string, pat: Pattern, i: nat, p: nat)
    requires WellFormed(pat)
    requires FindMarker(t, pat.marker, 0) == Some(i)
    requires FindTerm(t, pat.terminators, SkipSpace(t, i + |pat.marker|)).None?
    requires i + |pat.marker| <= p
    requires LastTermBefore(t, pat.terminators, i + |pat.marker|, SkipSpace(t, i + |pat.marker|)) == Some(p)
    ensures IsFirstMatch(t, pat, Hit(i, p - (i + |pat.marker|), 0))
  {
    var s := SkipSpace(t, i + |pat.marker|);
    BacktrackFacts(t, pat, i, p);
    LatestTerm(t, pat.terminators, i + |pat.marker|, s, p);
    CandidateBounds(t, pat, i);
    BacktrackOrder(t, pat, i, s, p);
  }

  /** What the scanner established in case 2, in the form `BacktrackOrder` uses. */
  lemma BacktrackFacts(t: string, pat: Pattern, i: nat, p: nat)
    requires FindMarker(t, pat.marker, 0) == Some(i)
    requires FindTerm(t, pat.terminators, SkipSpace(t, i + |pat.marker|)).None?
    requires LastTermBefore(t, pat.terminators, i + |pat.marker|, SkipSpace(t, i + |pat.marker|)) == Some(p)
    ensures MatchesAt(t, i, pat.marker)
    ensures AllSpace(t, i + |pat.marker|, SkipSpace(t, i + |pat.marker|))
    ensures NoTermIn(t, pat.terminators, p + 1, SkipSpace(t, i + |pat.marker|))
    ensures NoTermIn(t, pat.terminators, SkipSpace(t, i + |pat.marker|), |t| + 1)
  {
    var s := SkipSpace(t, i + |pat.marker|);
    SkipSpaceIsRun(t, i + |pat.marker|);
    NoTermAfter(t, pat.terminators, s);
    LatestTerm(t, pat.terminators, i + |pat.marker|, s, p);
  }

  /** No terminator from `from` to the end when `FindTerm` finds none. */
  lemma NoTermAfter(t: string, terms: seq<Terminator>, from: nat)
    requires from <= |t| && FindTerm(t, terms, from).None?
    ensures NoTermIn(t, terms, from, |t| + 1)
  {
    FindTermIsEarliest(t, terms, from);
  }

  /** The position `LastTermBefore` reports holds a terminator, and none follows
      it before `hi`. */
  lemma LatestTerm(t: string, terms: seq<Terminator>, lo: nat, hi: nat, p: nat)
    requires lo <= hi <= |t|
    requires LastTermBefore(t, terms, lo, hi) == Some(p)
    ensures TermAt(t, terms, p) && NoTermIn(t, terms, p + 1, hi)
  {
    LastTermBeforeIsLatest(t, terms, lo, hi);
  }

  /** The ordering argument of case 2, on the facts the scanner established. */
  lemma BacktrackOrder(t: string, pat: Pattern, i: nat, s: nat, p: nat)
    requires MatchesAt(t, i, pat.marker)
    requires i + |pat.marker| <= p < s <= |t|
    requires AllSpace(t, i + |pat.marker|, s)
    requires TermAt(t, pat.terminators, p)
    requires NoTermIn(t, pat.terminators, p + 1, s)
    requires NoTermIn(t, pat.terminators, s, |t| + 1)
    requires CandidatesBounded(t, pat, i, s)
    ensures IsFirstMatch(t, pat, Hit(i, p - (i + |pat.marker|), 0))
  {
    var hit := Hit(i, p - (i + |pat.marker|), 0);
    assert GroupStart(pat, hit) == p;
    forall h | Valid(t, pat, h) ensures !TriedBefore(h, hit) {
      if h.at == i {
        TermNotAfter(t, pat.terminators, p, s, GroupStart(pat, h) + h.len);
      }
    }
  }

  /** With no terminator in `(p, |t|]`, one at `e` lies at or before `p`. */
  lemma TermNotAfter(t: string, terms: seq<Terminator>, p: nat, s: nat, e: nat)
    requires TermAt(t, terms, e) && e <= |t|
    requires NoTermIn(t, terms, p + 1, s) && NoTermIn(t, terms, s, |t| + 1)
    ensures e <= p
  {
  }

  /** Case 3: no terminator from the start of the run onwards. */
  lemma NoTerminatorNoMatch(t: string, pat: Pattern, i: nat)
    requires WellFormed(pat)
    requires FindMarker(t, pat.marker, 0) == Some(i)
    requires FindTerm(t, pat.terminators, SkipSpace(t, i + |pat.marker|)).None?
    requires LastTermBefore(t, pat.terminators, i + |pat.marker|, SkipSpace(t, i + |pat.marker|)).None?
    ensures Search(t, pat).None? && !HasMatch(t, pat)
  {
    var s := SkipSpace(t, i + |pat.marker|);
    FindTermIsEarliest(t, pat.terminators, s);
    LastTermBeforeIsLatest(t, pat.terminators, i + |pat.marker|, s);
    CandidateBounds(t, pat, i);
    NoMatchOrder(t, pat, i, s);
  }

  /** The argument of case 3, on the facts the scanner established. */
  lemma NoMatchOrder(t: string, pat: Pattern, i: nat, s: nat)
    requires i + |pat.marker| <= s <= |t|
    requires NoTermIn(t, pat.terminators, i + |pat.marker|, s)
    requires NoTermIn(t, pat.terminators, s, |t| + 1)
    requires CandidatesBounded(t, pat, i, s)
    ensures !HasMatch(t, pat)
  {
    forall h ensures !Valid(t, pat, h) {
      if h.at == i && GroupStart(pat, h) + h.len <= |t| {
        var e: nat := GroupStart(pat, h) + h.len;
        if e < s {
          NoTermAt(t, pat.terminators, i + |pat.marker|, s, e);
        } else {
          NoTermAt(t, pat.terminators, s, |t| + 1, e);
        }
      }
    }
  }

  /** What `Search` promises: the reported hit is the first match, and nothing
      is reported exactly when there is no match. */
  ghost predicate SearchAgrees(t: string, pat: Pattern) {
    && (Search(t, pat).Some? ==> IsFirstMatch(t, pat, Search(t, pat).value))
    && (Search(t, pat).None? <==> !HasMatch(t, pat))
  }

  /** The scanner returns exactly the match `re.search` reports, and finds
      nothing exactly when the pattern has no match in `t`. */
  lemma SearchIsFirstMatch(t: string, pat: Pattern)
    requires WellFormed(pat)
    ensures Search(t, pat).Some? ==> IsFirstMatch(t, pat, Search(t, pat).value)
    ensures Search(t, pat).None? <==> !HasMatch(t, pat)
  {
    match FindMarker(t, pat.marker, 0)
    case None =>
      NoMarkerNoMatch(t, pat);
    case Some(i) =>
      var b := i + |pat.marker|;
      var s := SkipSpace(t, b);
      match FindTerm(t, pat.terminators, s)
      case Some(p) =>
        SearchForward(t, pat, i, p);
      case None =>
        match LastTermBefore(t, pat.terminators, b, s)
        case Some(p) =>
          SearchBacktrack(t, pat, i, p);
        case None =>
          NoTerminatorNoMatch(t, pat, i);
  }

  /** Case 1, as the scanner reports it. */
  lemma SearchForward(t: string, pat: Pattern, i: nat, p: nat)
    requires WellFormed(pat)
    requires FindMarker(t, pat.marker, 0) == Some(i)
    requires SkipSpace(t, i + |pat.marker|) <= p
    requires FindTerm(t, pat.terminators, SkipSpace(t, i + |pat.marker|)) == Some(p)
    ensures SearchAgrees(t, pat)
  {
    var s := SkipSpace(t, i + |pat.marker|);
    var hit := Hit(i, s - (i + |pat.marker|), p - s);
    ForwardReport(t, pat, i, p);
    ForwardHitIsFirst(t, pat, i, p);
    ReportedFirstMatch(t, pat, hit);
  }

  lemma ForwardReport(t: string, pat: Pattern, i: nat, p: nat)
    requires FindMarker(t, pat.marker, 0) == Some(i)
    requires FindTerm(t, pat.terminators, SkipSpace(t, i + |pat.marker|)) == Some(p)
    ensures Search(t, pat) == Some(Hit(i, SkipSpace(t, i + |pat.marker|) - (i + |pat.marker|), p - SkipSpace(t, i + |pat.marker|)))
  {
    assert Search(t, pat) == SearchFrom(t, pat, i);
  }

  /** Case 2, as the scanner reports it. */
  lemma SearchBacktrack(t: string, pat: Pattern, i: nat, p: nat)
    requires WellFormed(pat)
    requires FindMarker(t, pat.marker, 0) == Some(i)
    requires FindTerm(t, pat.terminators, SkipSpace(t, i + |pat.marker|)).None?
    requires i + |pat.marker| <= p
    requires LastTermBefore(t, pat.terminators, i + |pat.marker|, SkipSpace(t, i + |pat.marker|)) == Some(p)
    ensures SearchAgrees(t, pat)
  {
    var hit := Hit(i, p - (i + |pat.marker|), 0);
    BacktrackReport(t, pat, i, p);
    BacktrackHitIsFirst(t, pat, i, p);
    ReportedFirstMatch(t, pat, hit);
  }

  lemma BacktrackReport(t: string, pat: Pattern, i: nat, p: nat)
    requires FindMarker(t, pat.marker, 0) == Some(i)
    requires FindTerm(t, pat.terminators, SkipSpace(t, i + |pat.marker|)).None?
    requires i + |pat.marker| <= p
    requires LastTermBefore(t, pat.terminators, i + |pat.marker|, SkipSpace(t, i + |pat.marker|)) == Some(p)
    ensures Search(t, pat) == Some(Hit(i, p - (i + |pat.marker|), 0))
  {
    assert Search(t, pat) == SearchFrom(t, pat, i);
  }

  /** Reporting the first match is all `SearchAgrees` asks when there is one. */
  lemma ReportedFirstMatch(t: string, pat: Pattern, hit: Hit)
    requires Search(t, pat) == Some(hit)
    requires IsFirstMatch(t, pat, hit)
    ensures SearchAgrees(t, pat)
  {
  }

  /** Case 4: no marker at all. */
  lemma NoMarkerNoMatch(t: string, pat: Pattern)
    requires FindMarker(t, pat.marker, 0).None?
    ensures Search(t, pat).None? && !HasMatch(t, pat)
  {
    forall h ensures !Valid(t, pat, h) {
      assert !MatchesAt(t, h.at, pat.marker);
    }
  }

  /** Only the leftmost marker occurrence matters: a match exists if and only if
      one exists that starts at the leftmost marker, and then that is the match
      the search reports. */
  lemma LeftmostMarkerDecides(t: string, pat: Pattern, i: nat)
    requires WellFormed(pat)
    requires MatchesAt(t, i, pat.marker)
    requires forall j: nat :: j < i ==> !MatchesAt(t, j, pat.marker)
    ensures HasMatch(t, pat) <==> exists k, n :: Valid(t, pat, Hit(i, k, n))
    ensures forall h :: IsFirstMatch(t, pat, h) ==> h.at == i
  {
    SearchIsFirstMatch(t, pat);
    assert FindMarker(t, pat.marker, 0) == Some(i);
    if HasMatch(t, pat) {
      var h := Search(t, pat).value;
      assert Valid(t, pat, Hit(i, h.skip, h.len));
      forall h' | IsFirstMatch(t, pat, h') ensures h'.at == i {
        assert !TriedBefore(h, h') && !TriedBefore(h', h);
      }
    }
  }

  /** The group of the first match holds no terminator: the lazy group stops at
      the earliest one. */
  lemma GroupStopsAtFirstTerminator(t: string, pat: Pattern, h: Hit)
    requires IsFirstMatch(t, pat, h)
    ensures forall p :: GroupStart(pat, h) <= p < GroupStart(pat, h) + h.len ==> !TermAt(t, pat.terminators, p)
  {
    forall p | GroupStart(pat, h) <= p < GroupStart(pat, h) + h.len
      ensures !TermAt(t, pat.terminators, p)
    {
      var earlier := Hit(h.at, h.skip, p - GroupStart(pat, h));
      assert TermAt(t, pat.terminators, p) ==> Valid(t, pat, earlier);
    }
  }

  /** The first match is unique. */
  lemma FirstMatchUnique(t: string, pat: Pattern, h1: Hit, h2: Hit)
    requires IsFirstMatch(t, pat, h1) && IsFirstMatch(t, pat, h2)
    ensures h1 == h2
  {
    assert !TriedBefore(h1, h2) && !TriedBefore(h2, h1);
  }
}
