# FUJECE manuscript checker — a Dafny model

`streamlit_app.py` is a small Streamlit app. It checks an uploaded journal
manuscript against the structural rules of the Firat University Journal
(FUJECE) template. This project models its checking core and proves what
each check promises:

- **Rule set.** Fixed bounds: 100 to 250 words for the abstract and 3 to 6
  keywords. There is also an ordered list of required section names. These
  live in module `Rules` (`rules.dfy`).
- **The two section-locating regular expressions.** Both are searched with
  `re.search` under `IGNORECASE | DOTALL`:

  ```
  Abstract\s*(.*?)(Keywords|1\.\s*Introduction|\n\s*\n\s*\n)
  Keywords:\s*(.*?)(1\.\s*Introduction|\n\s*\n)
  ```

  They live in module `Capture` (`capture.dfy`).
  - `Valid`, `TriedBefore` and `IsFirstMatch` state the regular-expression
    meaning directly. A candidate match is a start position, a length for the
    greedy `\s*` and a length for the lazy group. The engine reports the
    candidate it tries first: the leftmost start, then the longest `\s*`, then
    the shortest group.
  - `Search` is a direct scanner. It finds the leftmost marker, skips the
    whole whitespace run after it and looks for the earliest terminator. When
    there is none, it backtracks into that whitespace run.
  - `SearchIsFirstMatch` proves that the scanner and the reference meaning
    agree.
- **`check_abstract_word_count` and `check_keywords_count`.** Both are in
  module `Checks` (`checks.dfy`). The abstract check counts Python's
  `str.split()` words of the stripped capture. The keyword check splits the
  capture on runs of `,` `;` and newline, strips each piece and drops the
  empty ones. Each produces a `Measurement` and then a PASS or FAIL message.
- **`check_section_presence`.** This is module `Sections` (`sections.dfy`),
  and it is imperative: a loop appends one PASS or FAIL line per name and
  collects the missing names. A summary line follows.
- **Report assembly.** This is module `Report` (`report.dfy`). Three labelled
  lines are appended to a list and joined by newlines. This happens only when
  the guidelines were loaded and the uploaded file decoded to a non-empty
  text.
- **Shared text helpers.** These are in module `Text` (`text.dfy`):
  - Python's ASCII whitespace test
  - ASCII case folding
  - `strip`, `split`, `join` and `str(int)`

Whitespace is Python's `str.isspace()` restricted to ASCII: tab, line feed,
vertical tab, form feed, carriage return, 0x1C-0x1F and space. Case-insensitive
matching is ASCII lower-casing.

## Model

| member | source | states |
|---|---|---|
| Rules.ParseTemplateRules | streamlit_app.py:5-36 | The rule set has a well-formed range for each count (`0 <= min <= max`), the bounds 100-250 and 3-6, and a non-empty section list whose first entry is "Abstract". |
| Rules.RulesIgnoreTemplate | streamlit_app.py:22-36 | The rule set does not depend on the template text it is given. |
| Report.SectionsToCheckAreTheRules | streamlit_app.py:139-144 | The list the app checks for equals the rule set's ordered section list. |
| Capture.FindMarker | streamlit_app.py:52 | Returns the leftmost case-insensitive occurrence of the marker at or after `from`, or none when there is none. |
| Capture.FindTermIsEarliest | streamlit_app.py:52 | The terminator search returns a terminator position with none before it. It returns none only when no position up to the end has one. |
| Capture.LastTermBeforeIsLatest | streamlit_app.py:52 | The backtracking search returns the latest terminator position inside the whitespace run. It returns none only when the run holds none. |
| Capture.Search | streamlit_app.py:52 | A reported hit is a complete match: the marker occurs at its start, only whitespace lies between the marker and the group, the group lies inside the text and a terminator begins right after it. |
| Capture.SearchIsFirstMatch | streamlit_app.py:52-53 | For a well-formed pattern, `Search` reports exactly the match `re.search` reports (the first one in the engine's order). It reports nothing exactly when the pattern has no match. |
| Capture.NoMarkerNoMatch | streamlit_app.py:52-53 | Without the marker there is no match and nothing is reported. |
| Capture.NoTerminatorNoMatch | streamlit_app.py:52-53 | If no terminator follows the leftmost marker (not even inside its whitespace run), there is no match at all. |
| Capture.ForwardHitIsFirst | streamlit_app.py:52 | A terminator after the whitespace run gives the first match: the whole run is skipped and the group ends at the earliest terminator. |
| Capture.BacktrackHitIsFirst | streamlit_app.py:52 | When no terminator follows the run, the first match is the latest terminator inside the run, with an empty group. |
| Capture.CandidateBounds | streamlit_app.py:52 | Every match at the leftmost marker starts its group within the marker's whitespace run. Every match elsewhere starts later, beyond that run. |
| Capture.LaterMarkerBeyondRun | streamlit_app.py:52 | A later occurrence of a self-disjoint marker starts after the whitespace run that follows an earlier one. |
| Capture.OverlapGivesBorder | streamlit_app.py:52 | Two overlapping occurrences of a marker force the marker to have a border. |
| Capture.LeftmostMarkerDecides | streamlit_app.py:52-53 | Only the leftmost marker occurrence matters. A match exists if and only if one exists at that occurrence, and the reported match starts there. |
| Capture.GroupStopsAtFirstTerminator | streamlit_app.py:52 | The reported group never extends past a terminator position: no terminator starts inside it. |
| Capture.FirstMatchUnique | streamlit_app.py:52 | The first match in the engine's order is unique. |
| Checks.PatternsWellFormed | streamlit_app.py:52-64 | Both markers are non-empty, do not start with whitespace and cannot overlap themselves. |
| Checks.CheckAbstract | streamlit_app.py:52-56 | The abstract is not identified exactly when the pattern has no match. Otherwise the measured text is the stripped group of the first match, and the count is its number of whitespace-separated words. The verdict is PASS if and only if `min <= count <= max`. |
| Checks.Judge | streamlit_app.py:56 | The verdict is PASS if and only if `min <= count <= max`, both bounds inclusive. |
| Checks.BacktrackedAbstractIsEmpty | streamlit_app.py:52-55 | When no terminator follows the whitespace after the leftmost `Abstract` but a run of blank lines begins inside it, the engine backtracks to that run: the abstract is empty, has 0 words and is judged on a count of 0. |
| Checks.CheckAbstractWordCount | streamlit_app.py:49-60 | The message starts with "PASS: " if and only if an abstract was located and its word count is in the inclusive range. Without a match it is the fixed "not clearly identified or missing" FAIL line. |
| Checks.AbstractMessage | streamlit_app.py:56-60 | A PASS line exactly for a measured abstract with a passing verdict; a FAIL line otherwise. |
| Checks.Tagged | streamlit_app.py:57-59 | A message starts with "PASS: " exactly for the PASS verdict, and with "FAIL: " otherwise. |
| Checks.FieldEnd | streamlit_app.py:68 | The first separator (`,` `;` or newline) at or after `i`, with none before it. |
| Checks.SeparatorRunEnd | streamlit_app.py:68 | The end of the maximal run of separators starting at `i`. |
| Checks.SplitOnSeparators | streamlit_app.py:68 | `re.split(r"[,;\n]+", s)` yields at least one piece, and no piece contains a separator. |
| Checks.SplitReassembles | streamlit_app.py:68 | Putting the cut-out separator runs back between the pieces gives the input again. There is one run fewer than pieces, every run is a non-empty run of separators, and only the first and last piece can be empty. |
| Checks.SplitInterleave | streamlit_app.py:68 | Conversely, separator-free pieces (only the first and last may be empty) joined by any non-empty separator runs split back into exactly those pieces and runs. |
| Checks.TidyKeywords | streamlit_app.py:68 | The comprehension keeps at most as many keywords as there were pieces. |
| Checks.TidyKeywordsOne | streamlit_app.py:68 | A single piece yields its stripped text, or nothing when that is empty. |
| Checks.TidyKeywordsAppend | streamlit_app.py:68 | The comprehension works piece by piece, in order: tidying two lists one after the other gives the keywords of the first followed by those of the second. With `TidyKeywordsOne` this fixes the result as the non-empty strips of the pieces, in order. |
| Checks.TidyCleanKeywords | streamlit_app.py:68 | Clean keywords pass through the comprehension unchanged. |
| Checks.KeywordsAnySeparators | streamlit_app.py:66-68 | Clean keywords separated by any mix of runs of `,` `;` and newline are read back as exactly those keywords, in order. |
| Checks.TidyKeywordsClean | streamlit_app.py:68 | Every kept keyword is non-empty with no leading or trailing whitespace. It is separator-free when the pieces were. |
| Checks.KeywordList | streamlit_app.py:66-68 | Every extracted keyword is non-empty, stripped and separator-free. |
| Checks.CheckKeywords | streamlit_app.py:64-69 | The keywords are not identified exactly when the pattern has no match. Otherwise the list is the one extracted from the first match's group, its count is its length, and the verdict is PASS if and only if `min <= count <= max`. |
| Checks.KeywordsRoundTrip | streamlit_app.py:66-68 | Any list of clean keywords written as `k1, k2, ..., kn` is read back as exactly that list, in order. |
| Checks.SplitJoined | streamlit_app.py:68 | Splitting and tidying a (possibly blank-led) comma-joined list of clean keywords gives back the list. |
| Checks.JoinEnds | streamlit_app.py:66 | A comma-joined list of clean keywords starts and ends with a non-space character, so stripping leaves it unchanged. |
| Checks.SplitFieldThenComma | streamlit_app.py:68 | A separator-free piece followed by ", " is split off as its own piece. |
| Checks.KeywordsMessage | streamlit_app.py:70-74 | A PASS line exactly for a measured keyword list with a passing verdict; a FAIL line otherwise. |
| Checks.CheckKeywordsCount | streamlit_app.py:62-74 | The message starts with "PASS: " if and only if a keyword list was located and its length is in the inclusive range. Without a match it is the fixed "not clearly identified or missing" FAIL line. |
| Text.Strip | streamlit_app.py:54 | `str.strip()` is empty exactly for an all-whitespace string. Otherwise it starts and ends with a non-space character, is no longer than the input and keeps only the input's characters. |
| Text.StripIsTrimmedSlice | streamlit_app.py:54 | The strip is the slice of the input left between an all-whitespace prefix and an all-whitespace suffix. |
| Text.TrimEnd | streamlit_app.py:54 | Only whitespace follows the trimmed end, and the character before it is not whitespace. |
| Text.SkipSpace | streamlit_app.py:52 | The greedy `\s*` run is maximal: it stops at the end of the text or at a non-space character. |
| Text.SkipSpaceIsRun | streamlit_app.py:52 | What the greedy `\s*` consumes is whitespace. |
| Text.Words | streamlit_app.py:55 | `len(s.split())` equals an independent character-by-character count of the maximal non-whitespace runs, and every word is non-empty and free of whitespace. |
| Text.WordsAreNonSpaceRuns | streamlit_app.py:55 | Every word found from a position on is non-empty and free of whitespace. |
| Text.WordCountOfStrip | streamlit_app.py:54-55 | Stripping before splitting does not change the number of words. |
| Text.LowerString | streamlit_app.py:52 | ASCII case folding keeps the length and folds character by character. |
| Text.LowerKeepsSpace | streamlit_app.py:52 | Case folding never turns whitespace into non-whitespace, nor the reverse. |
| Text.IntToString | streamlit_app.py:57 | `str(n)` is non-empty; for `n >= 0` it is all digits, and for `n < 0` it starts with '-'. |
| Text.NatToStringValue | streamlit_app.py:57 | The decimal rendering of a natural number reads back, most significant digit first, as that number, and starts with '0' only for 0. |
| Text.IntToStringValue | streamlit_app.py:57 | The rendering of an integer is its digits when it is not negative, and otherwise '-' followed by the digits of its magnitude; the digits read back as the number or its magnitude. |
| Text.Join | streamlit_app.py:89-90 | `sep.join` of no parts is empty, and of one part is that part. |
| Text.JoinLength | streamlit_app.py:89-90 | A join holds each part once and one separator between each two neighbouring parts: its length is the parts' total length plus `(n - 1)` separators. |
| Sections.SectionFound | streamlit_app.py:83 | The section is found exactly when its name occurs, case-insensitively, at some position of the text. |
| Sections.OrdinalPrefixIsIrrelevant | streamlit_app.py:83 | `(?:\d+\.\s*)?name` matches case-insensitively if and only if the name itself occurs case-insensitively, which is what `SectionFound` reports. |
| Sections.SectionLineVerdict | streamlit_app.py:83-87 | A section's line starts with "PASS: " exactly when the section is found, and with "FAIL: " otherwise. |
| Sections.SectionLines | streamlit_app.py:80-86 | One result line per name. |
| Sections.MissingSections | streamlit_app.py:86-87 | The missing list is never longer than the name list. |
| Sections.MissingIsFailedSubsequence | streamlit_app.py:79-87 | A name is missing exactly when it is in the list and not found. Nothing is missing exactly when every name is found. When none is found, every name is missing, in order. |
| Sections.Summary | streamlit_app.py:88-90 | The summary says all sections are present if and only if the missing list is empty; otherwise it opens with the "Missing sections: " heading. |
| Sections.SectionReport | streamlit_app.py:88-90 | The section report starts with "PASS: " exactly when the first name is found; with no names it is the all-present summary alone. |
| Sections.CheckSectionPresence | streamlit_app.py:76-90 | The loop produces the lines of `SectionLines` (one per name, in order, PASS or FAIL by `SectionFound`), the missing list `MissingSections`, and the report: the lines joined by newlines plus the summary. |
| Report.ReportLines | streamlit_app.py:124-147 | The report has exactly three lines, in the order the checks run. |
| Report.AbstractLineVerdict | streamlit_app.py:127-129 | The "Abstract Check: " line carries PASS exactly when an abstract of 100 to 250 words was located. |
| Report.KeywordsLineVerdict | streamlit_app.py:132-134 | The "Keywords Check: " line carries PASS exactly when 3 to 6 keywords were located. |
| Report.SectionsLineVerdict | streamlit_app.py:139-147 | The "Section Presence Check: " line opens with PASS exactly when "Abstract" occurs in the text. |
| Report.BuildReport | streamlit_app.py:115-155 | A report exists exactly when the guidelines were loaded and the article decoded to a non-empty text. It then holds the three labelled lines joined by newlines; otherwise nothing was appended. |

## Left out

- The Streamlit user interface is not modelled: page layout, headers, sidebar messages, the info text, `st.markdown`/`st.text` display and the download button itself. Only the report string the button would offer is modelled.
- Reading the template guidelines file (streamlit_app.py:102-113) is file I/O. Its outcome is the parameter `guidelinesLoaded` of `Report.BuildReport`.
- Decoding the uploaded file (`extract_text_from_uploaded_file`, streamlit_app.py:38-47) is a foreign library call. Its outcome is the parameter `article`: `None` for no file or a decoding error, otherwise the text.
- Unicode whitespace and Unicode case folding in Python's `re` and `str` are not modelled. Only ASCII whitespace and ASCII lower-casing are.
- The typographic entries of the rule dictionary (font, margins, line spacing, font sizes; streamlit_app.py:30-34) are not modelled. No check reads them.
- `parse_template_rules` is never called by the app; the model states its result and proves that its section list is the one the app checks.
- A malformed rule set (min greater than max, or an empty section list) is not rejected with an error, because the code has no such check. The model follows the code: the rules are constants and are proved well-formed.
- Checks.ListText: the keyword list appears in the message as a simplified `['a', 'b']` rendering. Python's `repr` escaping of quotes and special characters inside keywords is not modelled.
- Capture.TerminatorAt: for `1\.\s*Introduction` and the blank-line terminators, only the maximal whitespace run is tried. The title begins with a non-space letter, and newlines are themselves whitespace, so a shorter run can never succeed where the maximal one fails.
- Text.WordCountOfStrip: states that stripping keeps the number of words, which is all the source uses. It does not state that the word lists are equal.
