# resume-helper analysers, modelled in Dafny

This project models the four text analysers of resume-helper. Each one reads a
resume in Markdown and reports findings with a score:

- `tools/detect_vague_claims.py` reports at most one vague claim per content line.
  The claim comes from the highest-priority pattern that matches the line and
  whose "unless followed by" exception does not apply. The tool also scores the
  resume by severity-weighted claims per content line.
- `tools/detect_buzzwords.py` reports every whole-word buzzword on every line,
  headings included. Words whose allowed context appears on the line are not
  reported. The tool scores the resume with a tolerance of 1.5 weighted
  buzzwords per non-blank line.
- `tools/quantification_helper.py` reports, for each content line that is not
  already quantified, the first claim pattern in priority order that matches it.
  `analyze_single_claim` gives the questions for a single claim.
- `tools/ats_compatibility.py` checks whether the resume suits an applicant
  tracking system:
  - standard section headings;
  - per-line table and special-character issues;
  - whole-document issues: images, contact details, dates, length and bullets;
  - keywords taken from a job description and matched against the resume;
  - a 0–1 score.

The modules follow the program's structure:

| module | file | what it holds |
|---|---|---|
| `Wrappers`, `Text` | text.dfy | `Option`; Python's `str.strip`, `str.split('\n')`, `str.lower` on ASCII; the heading, blank and content-line tests; `\b…\b` whole-word search |
| `Collecting` | collecting.dfy | `[x for x in xs if x is not None]` and the per-line collection every detector does |
| `Ordering` | ordering.dfy | Python's string order and `sorted(set(...))` |
| `Severity`, `Scoring`, `Catalogue` | catalogue.dfy | severity weights and deductions; the shared "one minus weighted issues over a budget" score; `list.sort(key=-priority)` as a stable sort |
| `VagueClaims` | vague_claims.dfy | `detect_vague_claims.py` |
| `Buzzwords` | buzzwords.dfy | `detect_buzzwords.py` |
| `Quantification` | quantification.dfy | `quantification_helper.py` |
| `AtsSections`, `AtsIssues`, `AtsKeywords`, `AtsReport` | ats_*.dfy | `ats_compatibility.py` |

Regular expressions whose contents are data (the claim, buzzword-context and
section tables) are modelled as function-valued fields: `string -> bool`, or
`string -> Option<Span>` for a search that reports where it matched. The model
then holds for every table, not only the shipped one. The regular expressions
that the contracts depend on are written out character by character:

- `\b word \b` for buzzwords and keywords;
- the four quantification tests `\d+`, `\d+\s*%`, `\$[\d,]+` and `\d+x\b`;
- the special-character class of the ATS check;
- the `^#+\s*` heading prefix.

## Model

| member | source | states |
|---|---|---|
| Text.Strip | tools/detect_vague_claims.py:244 | the stripped line is no longer than the line and neither starts nor ends with whitespace |
| Text.StripSpec | tools/detect_vague_claims.py:244 | the stripped line is a slice of the line with only whitespace cut from both ends |
| Text.BlankIffAllSpace | tools/detect_vague_claims.py:245 | `not line.strip()` holds exactly when the line consists of whitespace only |
| Text.Split | tools/detect_vague_claims.py:239 | `split('\n')` gives at least one line, no line contains a newline, and joining the lines with newlines gives the text back |
| Text.SplitJoin | tools/detect_vague_claims.py:239 | splitting the join of newline-free lines gives the same lines: split and join are inverse |
| Text.LineCountsDiffer | tools/detect_buzzwords.py:370 | the buzzword line count (non-blank lines) equals the vague-claim line count (content lines) plus the number of heading lines |
| Text.FindWholeWordFinds | tools/detect_buzzwords.py:263 | the left-to-right search for `\bword\b` succeeds exactly when the word occurs somewhere as a whole word |
| Text.WholeWordIgnoresLower | tools/detect_buzzwords.py:260-263 | the search ignores case, so lower-casing the line first does not change whether a word is found |
| Text.WholeWordInSomeLine | tools/ats_compatibility.py:333-343 | a newline-free word occurs as a whole word in a text exactly when it occurs in one of its lines |
| Ordering.SortedSet | tools/ats_compatibility.py:187-190 | `sorted(set(xs))` is strictly increasing in Python's string order and holds exactly the elements of `xs` |
| Ordering.SortedUnique | tools/ats_compatibility.py:205 | two strictly sorted lists with the same elements are equal, so the sorted output is determined by its set |
| Catalogue.PriorityOrder | tools/detect_vague_claims.py:219-220 | `sort(key=-priority)` yields a permutation of the positions in which priority never increases and equal priorities keep their order |
| Catalogue.PriorityOrderUnique | tools/detect_vague_claims.py:219-220 | there is exactly one such stable order, so the compiled catalogue is determined by the table |
| Scoring.BudgetScore | tools/detect_vague_claims.py:292-303 | `max(0, 1 - weighted / max(budget, 1))` lies in [0, 1] and is 1 when nothing is weighted |
| Scoring.BudgetScorePerfect | tools/detect_vague_claims.py:299-301 | the score is 1 exactly when the weighted count is 0 |
| Scoring.BudgetScoreZero | tools/detect_buzzwords.py:297-298 | the score is 0 exactly when the weighted count reaches `max(budget, 1)` |
| Scoring.BudgetScoreAntitone | tools/detect_vague_claims.py:301 | a larger weighted count never gives a larger score |
| Catalogue.CompileSorted | tools/detect_vague_claims.py:202-221 | `compile_patterns` (`VagueClaims.CompilePatterns`), and likewise `compile_claim_patterns` at tools/quantification_helper.py:238-251 (`Quantification.CompileClaimPatterns`): every definition is compiled once; the result is ordered by non-increasing priority and is the table under a stable priority order |
| VagueClaims.BestMatchSpec | tools/detect_vague_claims.py:248-265 | the inner loop returns the winner: a surviving pattern with priority above -1 that no surviving pattern exceeds, the first such on ties; it returns nothing exactly when no pattern can win |
| VagueClaims.WinnerUnique | tools/detect_vague_claims.py:263-265 | a line has at most one winner and the loop returns it |
| VagueClaims.ClaimAtSpec | tools/detect_vague_claims.py:244-277 | a line yields a claim exactly when it is a content line with a winner; the claim carries the line number, the stripped text, the text of the winner's match (`match.group()`) and the winner's issue, suggestion and severity |
| VagueClaims.Detect | tools/detect_vague_claims.py:232-280 | claims come out in strictly increasing line order, so no line is reported twice |
| VagueClaims.DetectReportsClaimAt | tools/detect_vague_claims.py:242-277 | every reported claim is the claim of its own line, and that line is a content line |
| VagueClaims.DetectComplete | tools/detect_vague_claims.py:244-268 | line `i + 1` is reported exactly when it is a content line on which some pattern can win |
| VagueClaims.DetectAtMostContentLines | tools/detect_vague_claims.py:244-246 | there are never more claims than content lines |
| VagueClaims.WinnerIsFirstSurvivor | tools/detect_vague_claims.py:219-265 | on a catalogue in priority order, the first surviving pattern is reported if its priority is above -1, and otherwise nothing is |
| VagueClaims.ExceptedPatternIsIgnored | tools/detect_vague_claims.py:257-260 | removing a pattern whose exception applies leaves the reported pattern unchanged |
| VagueClaims.WinnerInDefinitionOrder | tools/detect_vague_claims.py:202-265 | if some definition survives with priority above -1, the line gets a reported pattern, and it is the definition of highest priority, the earliest in the table on ties |
| VagueClaims.Score | tools/detect_vague_claims.py:283-303 | the score lies in [0, 1] and is 1 when there are no content lines or no claims |
| VagueClaims.ScorePerfectIffNoClaims | tools/detect_vague_claims.py:283-303 | with at least one content line, the score is 1 exactly when there is no claim |
| VagueClaims.ScoreAntitone | tools/detect_vague_claims.py:296-301 | adding claims never raises the score |
| VagueClaims.Analyze | tools/detect_vague_claims.py:377-379 | the score lies in [0, 1]; a resume without content lines gets no claims and a perfect score; there are never more claims than content lines |
| Buzzwords.CompileBuzzwords | tools/detect_buzzwords.py:212-239 | one definition per word of the table, category by category |
| Buzzwords.CompiledAt | tools/detect_buzzwords.py:216-237 | word `k` of category `c` compiles to the definition after the words of the earlier categories, with that word, suggestion, category, severity and allowed contexts |
| Buzzwords.CompiledFrom | tools/detect_buzzwords.py:216-237 | every compiled definition comes from some word of some category: nothing is invented |
| Buzzwords.ContextAllowedIff | tools/detect_buzzwords.py:265-269 | the loop over allowed contexts finds one exactly when some context occurs in the lower-cased line |
| Buzzwords.ReportsIff | tools/detect_buzzwords.py:262-271 | a definition reports on a line exactly when its word occurs there as a whole word, ignoring case, and no allowed context occurs in the lower-cased line |
| Buzzwords.NoExceptionAlwaysReported | tools/detect_buzzwords.py:225-228 | a word without an exception entry is reported on every line where it occurs as a whole word |
| Buzzwords.LineMatchesSpec | tools/detect_buzzwords.py:262-279 | one line yields one match per reporting definition, in catalogue order, and nothing else |
| Buzzwords.Detect | tools/detect_buzzwords.py:250-281 | every match carries a line number within the text, and matches come out in non-decreasing line order |
| Buzzwords.DetectLineBlock | tools/detect_buzzwords.py:259-279 | the matches of each line form one contiguous block of the output, in line order |
| Buzzwords.HeadingsAreScanned | tools/detect_buzzwords.py:259-263 | headings are not skipped: a reporting definition on a heading line yields its match |
| Buzzwords.Score | tools/detect_buzzwords.py:284-300 | the score lies in [0, 1] and is 1 when there are no lines or no matches |
| Buzzwords.ScorePerfectIffNoMatches | tools/detect_buzzwords.py:284-300 | with at least one non-blank line, the score is 1 exactly when nothing is reported |
| Buzzwords.ScoreZeroIffOverBudget | tools/detect_buzzwords.py:293-298 | the score is 0 exactly when the weighted matches reach 1.5 per non-blank line |
| Buzzwords.Analyze | tools/detect_buzzwords.py:369-371 | the score lies in [0, 1] and is perfect when the text has no non-blank line or no match |
| Quantification.OccursFromIff | tools/quantification_helper.py:288-291 | a left-to-right `re.search` succeeds exactly when the pattern matches at some position |
| Quantification.QuantifiedIff | tools/quantification_helper.py:288-295 | a line counts as quantified exactly when it has a percentage, a multiplier, or a dollar amount together with a number |
| Quantification.DollarWithoutDigitsIsNotQuantified | tools/quantification_helper.py:288-294 | `$,` matches the dollar test but does not make a line quantified, since the line has no digit |
| Quantification.MultiplierAtEndIsQuantified | tools/quantification_helper.py:291 | `3x` at the end of a line counts as a multiplier |
| Quantification.MultiplierNeedsBoundary | tools/quantification_helper.py:291 | `3xl` is not a multiplier because `\b` fails after the `x` |
| Quantification.FirstMatchSpec | tools/quantification_helper.py:311-326 | the pattern loop of `analyze_single_claim` returns the first pattern that matches, or none when none does |
| Quantification.PatternLoopIsFirstMatch | tools/quantification_helper.py:284-304 | the loop of `find_unquantified_claims` reports nothing on a quantified line, and otherwise the first matching pattern |
| Quantification.ClaimAtSpec | tools/quantification_helper.py:280-304 | a line yields a claim exactly when it is an unquantified content line matched by some pattern; the claim carries the line number, the stripped text and the first matching pattern's type, questions and template |
| Quantification.FindUnquantifiedClaims | tools/quantification_helper.py:273-306 | claims come out in strictly increasing line order, at most one per line |
| Quantification.FindComplete | tools/quantification_helper.py:280-304 | line `i + 1` is reported exactly when it is a content line, is not quantified and is matched by some pattern |
| Quantification.FindReportsClaimAt | tools/quantification_helper.py:278-304 | every reported claim is the claim of its own line |
| Quantification.FindReportsUnquantifiedLine | tools/quantification_helper.py:280-295 | every reported claim names a line within the text that is a content line and is not quantified |
| Quantification.FindAtMostContentLines | tools/quantification_helper.py:280-282 | there are never more claims than content lines |
| Quantification.AnalyzeSingleClaim | tools/quantification_helper.py:309-326 | the analysis echoes the claim text; it carries the first matching pattern's type, questions and template, or type "general" with the default questions and template when no pattern matches |
| Quantification.GeneralIffNoPattern | tools/quantification_helper.py:311-326 | the generic "general" answer, with the default questions and template, comes exactly when no pattern matches |
| Quantification.FindAgreesWithAnalyze | tools/quantification_helper.py:284-318 | for a reported line, `analyze_single_claim` gives the same type, questions and template as the claim |
| Quantification.AnalyzeIgnoresQuantification | tools/quantification_helper.py:284-318 | a quantified line is not reported, yet `analyze_single_claim` still classifies it by its first matching pattern |
| AtsSections.HeadingTitle | tools/ats_compatibility.py:94-105 | a line has a heading title exactly when it starts with `#`; the marker is every leading `#` (at least one) followed only by whitespace, the title is the rest of the line, and it does not start with whitespace |
| AtsSections.SecondMarkerIsTitle | tools/ats_compatibility.py:97 | `#+\s*` is greedy and stops at the first character after the whitespace: in `# # Skills` the title is `# Skills` |
| AtsSections.SectionOfSpec | tools/ats_compatibility.py:199-202 | a line opens a section exactly when it starts with `#` and some section's synonyms match its title; the section is the first such in table order |
| AtsSections.CheckSections | tools/ats_compatibility.py:193-205 | both lists are strictly sorted; a section is missing exactly when it is required and not found |
| AtsSections.FoundIff | tools/ats_compatibility.py:198-202 | a section is found exactly when some line of the resume opens it |
| AtsIssues.TableOnce | tools/ats_compatibility.py:214-227 | only the first table line of the scanned lines is flagged, and none once a table has been flagged |
| AtsIssues.SpecialFirstThree | tools/ats_compatibility.py:230-239 | the special-character issues name exactly the first lines with more than five special characters, up to the remaining allowance of three |
| AtsIssues.ScanLinesKinds | tools/ats_compatibility.py:217-239 | the line scan yields only table and special-character issues, each with its line number |
| AtsIssues.CheckAtsIssuesSpec | tools/ats_compatibility.py:208-239 | over the whole check, the table issue is on the first table line, if any, and the special-character issues are on the first three special lines |
| AtsIssues.ContactIssuesIff | tools/ats_compatibility.py:250-277 | the email, phone and LinkedIn issues are each reported exactly when that detail is absent |
| AtsIssues.FormatIssuesIff | tools/ats_compatibility.py:241-322 | the image issue is reported exactly when an image is referenced, the dates issue exactly when no date is found, and the bullets issue exactly when there are fewer than five bullets |
| AtsIssues.WordCountIssuesIff | tools/ats_compatibility.py:296-311 | "too short" is reported exactly under 200 words and "too long" exactly over 1000 |
| AtsIssues.DocIssuesCount | tools/ats_compatibility.py:241-322 | the whole-document issues number one per failed check, with at most one length issue |
| AtsIssues.DocIssuesUnlined | tools/ats_compatibility.py:241-322 | whole-document issues carry no line number and are never table or special-character issues |
| AtsKeywords.NatToString | tools/ats_compatibility.py:184 | the decimal form of a number is non-empty, all digits and has no leading zero unless the number is 0 |
| AtsKeywords.ParseNatToString | tools/ats_compatibility.py:183-184 | reading back the decimal form gives the number: `int(str(n)) == n` |
| AtsKeywords.MaxOf | tools/ats_compatibility.py:183 | `max` returns an element that bounds every element |
| AtsKeywords.AssignLastWins | tools/ats_compatibility.py:167-173 | when a keyword is assigned several categories, the last assignment is the one kept |
| AtsKeywords.AddAcronymsSpec | tools/ats_compatibility.py:176-179 | acronyms add their lower-cased form as "acronym" only where no category already claimed the keyword |
| AtsKeywords.KeywordMapKeys | tools/ats_compatibility.py:164-184 | the keyword map has a key for exactly the lower-cased category hits, the lower-cased acronyms and the years keyword |
| AtsKeywords.ExtractKeywords | tools/ats_compatibility.py:187-190 | keywords come out in strictly increasing order, none found yet and none with context |
| AtsKeywords.ExtractKeywordsSpec | tools/ats_compatibility.py:158-190 | the extracted keywords are exactly the keys of the map, each with its category |
| AtsKeywords.CategoryOfLastHit | tools/ats_compatibility.py:167-173 | a category hit keeps the category of its last occurrence unless the years keyword overwrites it |
| AtsKeywords.AcronymCategory | tools/ats_compatibility.py:176-179 | an acronym that no category claimed and that is not the years keyword ends with category "acronym" |
| AtsKeywords.YearsKeyword | tools/ats_compatibility.py:181-184 | with any "N years" in the description, "M+ years" for the largest M is a keyword of category "experience_level" |
| AtsKeywords.FoundIff | tools/ats_compatibility.py:328-334 | a keyword is found exactly when it occurs in the resume as a whole word, ignoring case |
| AtsKeywords.ContextIsFirstLine | tools/ats_compatibility.py:339-343 | for a found newline-free keyword, the context is the first 100 characters of the first line containing it, stripped |
| AtsKeywords.ContextOnlyWhenFound | tools/ats_compatibility.py:338-343 | a keyword without context gets one only when it is found |
| AtsReport.KeywordDeductionBounds | tools/ats_compatibility.py:361-364 | the keyword deduction lies in [0, 20]; it is 0 exactly when there are no keywords or all are found, and 20 exactly when none of at least one is found |
| AtsReport.CalculateScore | tools/ats_compatibility.py:348-366 | the score lies in [0, 1] and is 0 exactly when the deductions reach 100 |
| AtsReport.TotalDeductionZero | tools/ats_compatibility.py:354-355 | the issue deductions are 0 exactly when there is no issue, and at least 3 per issue |
| AtsReport.ScorePerfectIff | tools/ats_compatibility.py:348-366 | the score is 1 exactly when there is no issue, no missing section and every keyword is found |
| AtsReport.ScoreAntitone | tools/ats_compatibility.py:354-355 | more issues never raise the score |
| AtsReport.MissingSectionIssues | tools/ats_compatibility.py:445-451 | one high-severity "sections" issue per missing section, in order |
| AtsReport.MissingSectionsCost | tools/ats_compatibility.py:445-453 | each missing section costs 25 points: 15 for its issue and 10 for the missing-section deduction |
| AtsReport.Analyze | tools/ats_compatibility.py:431-453 | the report's score lies in [0, 1], and a section is missing exactly when it is required and not found |
| AtsReport.AnalyzePerfectIff | tools/ats_compatibility.py:431-453 | the report scores 1 exactly when the checks find no issue, no required section is missing and every keyword is found |

## Left out

- Reading files (`validate_and_read_file`), the size limit, the command line, the JSON and text output and its display sorting: these are I/O around the analysers.
- The concrete pattern tables (vague patterns, claim patterns, buzzword categories and exceptions, section synonyms, keyword patterns) are not reproduced. The operations take any table, so every property holds for the shipped tables too. One agreement rests on the shipped table rather than on a proof: `AtsSections.HeadingTitle` takes the greedy marker (all leading `#`s and all whitespace after them), while `re.match` may also try a shorter marker; the two find the same sections because every shipped section synonym begins with a letter.
- The regular-expression engine is not modelled. A table pattern is a search function; only the expressions listed above are written out.
- `AtsIssues.CheckAtsIssues`: the whole-document tests are given as a `DocFacts` record rather than computed: image, email, phone, LinkedIn, dates, word count and bullet count. These are single `re.search`/`findall` calls whose regexes the model does not reproduce.
- `AtsKeywords.ExtractKeywords`: the `findall` results of each keyword pattern, the acronyms and the "N years" numbers are given as a `JobHits` record. The tuple case `match[0]` of `findall` is therefore folded into the given strings.
- `VagueClaims.Score`, `Buzzwords.Score`, `AtsReport.CalculateScore`: the scores are exact reals. The source rounds to two decimals with `round(score, 2)` and computes in floating point.
- `Text.Lower`, `Text.IsDigit`, `Text.IsWordChar`: ASCII only. Python's Unicode `lower`, `\d` and `\w` also act on non-ASCII letters and digits, so the model counts those as special characters where Python would not.
- `AtsReport.Analyze`: a job description that cannot be read is modelled as no job description (`None`), as the source only warns and continues.
- The `lines_with_issues` set of `detect_vague_claims` is not modelled: each line is visited once, so it never rejects a claim (`VagueClaims.Detect` proves lines strictly increase).
- `IDEAL_MIN_WORDS` and `IDEAL_MAX_WORDS` only appear in suggestion text, and the issue and suggestion strings themselves are abbreviated to the issue kind.
