/** The FUJECE template's structural rule set: fixed bounds for the abstract
    length and the number of keywords, and the ordered list of required sections. */
module Rules {

  const ABSTRACT_MIN_WORDS: int := 100
  const ABSTRACT_MAX_WORDS: int := 250
  const KEYWORDS_MIN_COUNT: int := 3
  const KEYWORDS_MAX_COUNT: int := 6

  const SECTIONS_ORDERED: seq<string> := [
    "Abstract",
    "Keywords",
    "Introduction",
    "Results",
    "Acknowledgements",
    "Author Contribution Statement",
    "Ethics Committee Approval and Conflict of Interest"
  ]

  /** An inclusive range `min..max`. */
  datatype Bounds = Bounds(min: int, max: int)

  datatype TemplateRules = TemplateRules(
    abstractWordCount: Bounds,
    keywordsCount: Bounds,
    sections: seq<string>)

  /** A usable rule set: non-negative, non-empty ranges and at least one section. */
  predicate WellFormedRules(r: TemplateRules) {
    && 0 <= r.abstractWordCount.min <= r.abstractWordCount.max
    && 0 <= r.keywordsCount.min <= r.keywordsCount.max
    && r.sections != []
  }

  /** The rule set; the template text is not consulted. */
  function ParseTemplateRules(templateContent: string): (r: TemplateRules)
    ensures WellFormedRules(r)
    ensures r.abstractWordCount == Bounds(ABSTRACT_MIN_WORDS, ABSTRACT_MAX_WORDS)
    ensures r.keywordsCount == Bounds(KEYWORDS_MIN_COUNT, KEYWORDS_MAX_COUNT)
    ensures |r.sections| == 7 && r.sections[0] == "Abstract"
  {
    TemplateRules(
      Bounds(ABSTRACT_MIN_WORDS, ABSTRACT_MAX_WORDS),
      Bounds(KEYWORDS_MIN_COUNT, KEYWORDS_MAX_COUNT),
      SECTIONS_ORDERED)
  }

  /** The rules do not depend on the template text they are given. */
  lemma RulesIgnoreTemplate(a: string, b: string)
    ensures ParseTemplateRules(a) == ParseTemplateRules(b)
  {
  }
}
