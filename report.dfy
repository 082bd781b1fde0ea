/** The compliance report the app offers for download: one labelled line per
    check, joined by newlines, produced only when an article text is available
    and the template guidelines were loaded. */
module Report {
  import opened Text
  import opened Capture
  import Rules
  import opened Checks
  import opened Sections

  /** The sections the app checks for, listed where the report is built. */
  const SECTIONS_TO_CHECK: seq<string> := [
    "Abstract", "Keywords", "Introduction", "Results",
    "Acknowledgements", "Author Contribution Statement",
    "Ethics Committee Approval and Conflict of Interest"
  ]

  const ABSTRACT_LABEL := "Abstract Check: "
  const KEYWORDS_LABEL := "Keywords Check: "
  const SECTIONS_LABEL := "Section Presence Check: "

  /** The list checked by the app is the rule set's section list. */
  lemma SectionsToCheckAreTheRules(templateContent: string)
    ensures Rules.ParseTemplateRules(templateContent).sections == SECTIONS_TO_CHECK
  {
  }

  /** The three report lines for an article text, in the order the checks run. */
  function ReportLines(text: string): (lines: seq<string>)
    ensures |lines| == 3
  {
    [ ABSTRACT_LABEL + CheckAbstractWordCount(text, Rules.ABSTRACT_MIN_WORDS, Rules.ABSTRACT_MAX_WORDS),
      KEYWORDS_LABEL + CheckKeywordsCount(text, Rules.KEYWORDS_MIN_COUNT, Rules.KEYWORDS_MAX_COUNT),
      SECTIONS_LABEL + SectionReport(text, SECTIONS_TO_CHECK) ]
  }

  /** The abstract line passes exactly when an abstract of 100 to 250 words was
      located. */
  lemma AbstractLineVerdict(text: string)
    ensures StartsWith(ReportLines(text)[0], ABSTRACT_LABEL + "PASS: ") <==>
      HasMatch(text, ABSTRACT_PATTERN)
      && Rules.ABSTRACT_MIN_WORDS <= CheckAbstract(text, Rules.ABSTRACT_MIN_WORDS, Rules.ABSTRACT_MAX_WORDS).count <= Rules.ABSTRACT_MAX_WORDS
  {
    LabelledStartsWith(ABSTRACT_LABEL, CheckAbstractWordCount(text, Rules.ABSTRACT_MIN_WORDS, Rules.ABSTRACT_MAX_WORDS), "PASS: ");
  }

  /** The keywords line passes exactly when 3 to 6 keywords were located. */
  lemma KeywordsLineVerdict(text: string)
    ensures StartsWith(ReportLines(text)[1], KEYWORDS_LABEL + "PASS: ") <==>
      HasMatch(text, KEYWORDS_PATTERN)
      && Rules.KEYWORDS_MIN_COUNT <= |CheckKeywords(text, Rules.KEYWORDS_MIN_COUNT, Rules.KEYWORDS_MAX_COUNT).found| <= Rules.KEYWORDS_MAX_COUNT
  {
    LabelledStartsWith(KEYWORDS_LABEL, CheckKeywordsCount(text, Rules.KEYWORDS_MIN_COUNT, Rules.KEYWORDS_MAX_COUNT), "PASS: ");
  }

  /** The section line opens with the verdict on the first section checked,
      "Abstract". */
  lemma SectionsLineVerdict(text: string)
    ensures StartsWith(ReportLines(text)[2], SECTIONS_LABEL + "PASS: ") <==> SectionFound(text, "Abstract")
  {
    LabelledStartsWith(SECTIONS_LABEL, SectionReport(text, SECTIONS_TO_CHECK), "PASS: ");
  }

  /** The app's main flow after an upload: nothing is reported unless the
      guidelines were loaded and the article decoded to a non-empty text;
      otherwise the three checks run in order and their labelled lines are
      joined by newlines. `article` is `None` when no file was uploaded or it
      could not be decoded. */
  method BuildReport(article: Option<string>, guidelinesLoaded: bool)
    returns (results: seq<string>, report: Option<string>)
    ensures report.Some? <==> guidelinesLoaded && article.Some? && article.value != []
    ensures report.None? ==> results == []
    ensures report.Some? ==> results == ReportLines(article.value) && report.value == Join(results, "\n")
  {
    results := [];
    report := None;
    if !guidelinesLoaded || article.None? {
      return;
    }
    var text := article.value;
    if text == [] {
      return;
    }
    var abstractResult := CheckAbstractWordCount(text, Rules.ABSTRACT_MIN_WORDS, Rules.ABSTRACT_MAX_WORDS);
    results := results + [ABSTRACT_LABEL + abstractResult];
    var keywordsResult := CheckKeywordsCount(text, Rules.KEYWORDS_MIN_COUNT, Rules.KEYWORDS_MAX_COUNT);
    results := results + [KEYWORDS_LABEL + keywordsResult];
    var _, _, sectionResult := CheckSectionPresence(text, SECTIONS_TO_CHECK);
    results := results + [SECTIONS_LABEL + sectionResult];
    ThreeAppends(ABSTRACT_LABEL + abstractResult, KEYWORDS_LABEL + keywordsResult, SECTIONS_LABEL + sectionResult);
    report := Some(Join(results, "\n"));
  }

  lemma ThreeAppends(a: string, b: string, c: string)
    ensures [] + [a] + [b] + [c] == [a, b, c]
  {
  }
}
