/** The section presence check: one PASS or FAIL line per required section
    name, in the order given, and a summary naming the missing ones. */
module Sections {
  import opened Text
  import opened Capture

  // ---------------------------------------------------------------- matching

  predicate IsDigit(c: char) {
    '0' <= c <= '9'
  }

  /** `\d+\.\s*` spans `t[j..i]`. */
  ghost predicate OrdinalPrefix(t: string, j: nat, i: nat) {
    exists d :: j < d < i <= |t| && (forall x :: j <= x < d ==> IsDigit(t[x])) && t[d] == '.'
      && AllSpace(t, d + 1, i)
  }

  /** What `re.search(r"(?:\d+\.\s*)?" + re.escape(name), text, re.IGNORECASE)`
      accepts: the name, case-insensitively, optionally preceded by an ordinal. */
  ghost predicate SectionPatternMatches(t: string, name: string) {
    exists j: nat, i: nat :: PrefixedNameAt(t, name, j, i)
  }

  /** The whole pattern spans `t[j..]`, with the name itself at `i`. */
  ghost predicate PrefixedNameAt(t: string, name: string, j: nat, i: nat) {
    j <= i && (j == i || OrdinalPrefix(t, j, i)) && MatchesAt(t, i, LowerString(name))
  }

  /** The name occurs case-insensitively somewhere in the text. */
  function SectionFound(text: string, name: string): (found: bool)
    ensures found <==> exists i: nat :: MatchesAt(text, i, LowerString(name))
  {
    var w := LowerString(name);
    var r := FindMarker(text, w, 0);
    if r.Some? then
      var i: nat := r.value;
      assert MatchesAt(text, i, w);
      assert exists k: nat :: MatchesAt(text, k, LowerString(name));
      true
    else
      false
  }

  /** The optional ordinal prefix never changes the outcome: the pattern matches
      exactly when the name itself occurs somewhere, which is what `SectionFound`
      reports. */
  lemma OrdinalPrefixIsIrrelevant(t: string, name: string)
    ensures SectionPatternMatches(t, name) <==> SectionFound(t, name)
  {
    if SectionFound(t, name) {
      var i: nat :| MatchesAt(t, i, LowerString(name));
      assert PrefixedNameAt(t, name, i, i);
    }
  }

  // ---------------------------------------------------------------- results

  function PassLine(name: string): string {
    "PASS: Section \t'" + name + "\t' found."
  }

  function FailLine(name: string): string {
    "FAIL: Section \t'" + name + "\t' not found."
  }

  function SectionLine(text: string, name: string): string {
    if SectionFound(text, name) then PassLine(name) else FailLine(name)
  }

  /** A section's line is a PASS line exactly when the section was found, and a
      FAIL line otherwise. */
  lemma SectionLineVerdict(text: string, name: string)
    ensures StartsWith(SectionLine(text, name), "PASS: ") <==> SectionFound(text, name)
    ensures StartsWith(SectionLine(text, name), "PASS: ") || StartsWith(SectionLine(text, name), "FAIL: ")
  {
    assert SectionLine(text, name)[0] == if SectionFound(text, name) then 'P' else 'F';
  }

  /** One result line per name, in the order given. */
  function SectionLines(text: string, names: seq<string>): (lines: seq<string>)
    ensures |lines| == |names|
  {
    seq(|names|, i requires 0 <= i < |names| => SectionLine(text, names[i]))
  }

  /** One more name adds its own line at the end. */
  lemma SectionLinesSnoc(text: string, names: seq<string>, name: string)
    ensures SectionLines(text, names + [name]) == SectionLines(text, names) + [SectionLine(text, name)]
  {
  }

  /** The names not found, in the order given. */
  function MissingSections(text: string, names: seq<string>): (missing: seq<string>)
    ensures |missing| <= |names|
  {
    if names == [] then []
    else
      var last := names[|names| - 1];
      var front := names[..|names| - 1];
      assert names == front + [last];
      MissingSections(text, front) + (if SectionFound(text, last) then [] else [last])
  }

  /** Adding one more name extends the missing list by that name if it is not found. */
  lemma MissingSectionsSnoc(text: string, names: seq<string>, name: string)
    ensures MissingSections(text, names + [name]) ==
      MissingSections(text, names) + (if SectionFound(text, name) then [] else [name])
  {
    assert (names + [name])[..|names|] == names;
  }

  const ALL_PRESENT_SUMMARY := "\n\nSummary: All essential sections appear to be present."
  const MISSING_SUMMARY_HEAD := "\n\nSummary: Missing sections: "

  /** The summary claims every section is present exactly when none is missing;
      otherwise it opens with the missing-sections heading. */
  function Summary(missing: seq<string>): (r: string)
    ensures r == ALL_PRESENT_SUMMARY <==> missing == []
    ensures missing != [] ==> StartsWith(r, MISSING_SUMMARY_HEAD)
  {
    if missing != [] then
      MissingSummaryDiffers(Join(missing, ", "));
      PrefixOfLonger(MISSING_SUMMARY_HEAD, Join(missing, ", "), MISSING_SUMMARY_HEAD);
      MISSING_SUMMARY_HEAD + Join(missing, ", ")
    else ALL_PRESENT_SUMMARY
  }

  /** The text `check_section_presence` returns: the lines joined by newlines,
      then the summary. It opens with the first name's own verdict, and with no
      names at all it is the all-present summary alone. */
  function SectionReport(text: string, names: seq<string>): (r: string)
    ensures names != [] ==> (StartsWith(r, "PASS: ") <==> SectionFound(text, names[0]))
    ensures names == [] ==> r == ALL_PRESENT_SUMMARY
  {
    var summary := Summary(MissingSections(text, names));
    LinesOpen(text, names, summary);
    Join(SectionLines(text, names), "\n") + summary
  }

  /** Whatever follows them, the joined lines open with the first name's verdict. */
  lemma LinesOpen(text: string, names: seq<string>, after: string)
    ensures names != [] ==>
      (StartsWith(Join(SectionLines(text, names), "\n") + after, "PASS: ") <==> SectionFound(text, names[0]))
    ensures names == [] ==> Join(SectionLines(text, names), "\n") + after == after
  {
    var lines := SectionLines(text, names);
    if names != [] {
      SectionLineVerdict(text, names[0]);
      JoinOpens(lines, "\n", after, "PASS: ");
    } else {
      assert Join(lines, "\n") + after == after;
    }
  }

  lemma MissingSummaryDiffers(names: string)
    ensures MISSING_SUMMARY_HEAD + names != ALL_PRESENT_SUMMARY
  {
    assert (MISSING_SUMMARY_HEAD + names)[11] == 'M';
  }

  /** A name is missing exactly when it is one of the names and is not found;
      nothing is missing exactly when every name is found. (The order is the
      input order by the definition of `MissingSections`, which the loop of
      `CheckSectionPresence` follows one name at a time.) */
  lemma {:induction false} MissingIsFailedSubsequence(text: string, names: seq<string>)
    ensures forall n :: n in MissingSections(text, names) <==> n in names && !SectionFound(text, n)
    ensures MissingSections(text, names) == [] <==> forall n :: n in names ==> SectionFound(text, n)
    ensures (forall n :: n in names ==> !SectionFound(text, n)) ==> MissingSections(text, names) == names
  {
    if names != [] {
      var front := names[..|names| - 1];
      assert names == front + [names[|names| - 1]];
      assert forall n :: n in front ==> n in names;
      MissingIsFailedSubsequence(text, front);
    }
  }

  // ---------------------------------------------------------------- the check

  /** `check_section_presence`: walks the names in order, appending one line per
      name and collecting the names not found, then adds the summary. */
  method CheckSectionPresence(text: string, sectionsToCheck: seq<string>)
    returns (results: seq<string>, missing: seq<string>, report: string)
    ensures results == SectionLines(text, sectionsToCheck)
    ensures missing == MissingSections(text, sectionsToCheck)
    ensures report == SectionReport(text, sectionsToCheck)
  {
    results := [];
    missing := [];
    for i := 0 to |sectionsToCheck|
      invariant results == SectionLines(text, sectionsToCheck[..i])
      invariant missing == MissingSections(text, sectionsToCheck[..i])
    {
      var name := sectionsToCheck[i];
      assert sectionsToCheck[..i + 1] == sectionsToCheck[..i] + [name];
      SectionLinesSnoc(text, sectionsToCheck[..i], name);
      MissingSectionsSnoc(text, sectionsToCheck[..i], name);
      if SectionFound(text, name) {
        results := results + [PassLine(name)];
      } else {
        results := results + [FailLine(name)];
        missing := missing + [name];
      }
    }
    assert sectionsToCheck[..|sectionsToCheck|] == sectionsToCheck;
    if missing != [] {
      report := Join(results, "\n") + MISSING_SUMMARY_HEAD + Join(missing, ", ");
    } else {
      report := Join(results, "\n") + ALL_PRESENT_SUMMARY;
    }
  }
}
