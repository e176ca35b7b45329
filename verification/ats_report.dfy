/**
 The ATS score and the report that combines the section check, the format
 and content checks and, when a readable job description is given, the
 keyword matches. The score starts at 100 points, loses the deduction of
 every issue's severity, 10 points per missing section and up to 20 points
 for unmatched keywords, is clamped to 0..100 and scaled to 0..1.
 */
module AtsReport {
  import opened Wrappers
  import opened Severity
  import opened AtsIssues
  import opened AtsSections
  import opened AtsKeywords

  /** `MISSING_SECTION_DEDUCTION` and `KEYWORD_MISMATCH_MAX_DEDUCTION`. */
  const MissingSectionDeduction: nat := 10
  const KeywordMismatchMaxDeduction: nat := 20

  function Severities(issues: seq<AtsIssue>): (r: seq<Severity>)
    ensures |r| == |issues|
    ensures forall i :: 0 <= i < |issues| ==> r[i] == issues[i].severity
  {
    seq(|issues|, i requires 0 <= i < |issues| => issues[i].severity)
  }

  /** Number of keywords found in the resume. */
  function MatchedCount(kms: seq<KeywordMatch>): (n: nat)
    ensures n <= |kms|
  {
    if kms == [] then 0 else (if kms[0].foundInResume then 1 else 0) + MatchedCount(kms[1..])
  }

  /** Every keyword is found exactly when the count reaches the total. */
  lemma {:induction false} MatchedAll(kms: seq<KeywordMatch>)
    ensures MatchedCount(kms) == |kms| <==> forall i :: 0 <= i < |kms| ==> kms[i].foundInResume
  {
    if kms != [] {
      MatchedAll(kms[1..]);
      assert forall i :: 1 <= i < |kms| ==> kms[i] == kms[1..][i - 1];
    }
  }

  /** No keyword is found exactly when the count is zero. */
  lemma {:induction false} MatchedNone(kms: seq<KeywordMatch>)
    ensures MatchedCount(kms) == 0 <==> forall i :: 0 <= i < |kms| ==> !kms[i].foundInResume
  {
    if kms != [] {
      MatchedNone(kms[1..]);
      assert forall i :: 1 <= i < |kms| ==> kms[i] == kms[1..][i - 1];
    }
  }

  /** `(1 - match_rate) * KEYWORD_MISMATCH_MAX_DEDUCTION` when there are
      keywords, nothing otherwise. */
  function KeywordDeduction(kms: seq<KeywordMatch>): real
  {
    if kms == [] then 0.0
    else (1.0 - MatchedCount(kms) as real / |kms| as real) * KeywordMismatchMaxDeduction as real
  }

  /** A ratio of a part to a positive whole lies in 0..1, and is 0 or 1
      only for the empty and the full part. */
  lemma RatioFacts(m: real, n: real)
    requires 0.0 <= m <= n && n > 0.0
    ensures 0.0 <= m / n <= 1.0
    ensures m / n == 1.0 <==> m == n
    ensures m / n == 0.0 <==> m == 0.0
  {
    assert m == (m / n) * n;
    assert n / n == 1.0;
    assert n / n - m / n == (n - m) / n;
  }

  /** The keyword deduction lies between 0 and 20 points: nothing without
      keywords or when all are found, the full 20 when none is. */
  lemma KeywordDeductionBounds(kms: seq<KeywordMatch>)
    ensures 0.0 <= KeywordDeduction(kms) <= KeywordMismatchMaxDeduction as real
    ensures KeywordDeduction(kms) == 0.0 <==> kms == [] || MatchedCount(kms) == |kms|
    ensures KeywordDeduction(kms) == KeywordMismatchMaxDeduction as real <==> kms != [] && MatchedCount(kms) == 0
  {
    if kms != [] {
      var m := MatchedCount(kms);
      var q := m as real / |kms| as real;
      RatioFacts(m as real, |kms| as real);
      assert KeywordDeduction(kms) == (1.0 - q) * 20.0;
    }
  }

  /** The score before clamping, in points. */
  function RawScore(issues: seq<AtsIssue>, kms: seq<KeywordMatch>, missing: seq<string>): real
  {
    100.0 - TotalDeduction(Severities(issues)) as real
    - (|missing| * MissingSectionDeduction) as real
    - KeywordDeduction(kms)
  }

  function Clamp(x: real): (r: real)
    ensures 0.0 <= r <= 100.0
    ensures 0.0 <= x <= 100.0 ==> r == x
  {
    if x < 0.0 then 0.0 else if x > 100.0 then 100.0 else x
  }

  /** `calculate_score`. */
  function CalculateScore(issues: seq<AtsIssue>, kms: seq<KeywordMatch>, missing: seq<string>): (r: real)
    ensures 0.0 <= r <= 1.0
    ensures r == 0.0 <==> RawScore(issues, kms, missing) <= 0.0
  {
    Clamp(RawScore(issues, kms, missing)) / 100.0
  }

  /** Every severity deducts at least three points, so only an empty list
      deducts nothing. */
  lemma {:induction false} TotalDeductionZero(sevs: seq<Severity>)
    ensures TotalDeduction(sevs) == 0 <==> sevs == []
    ensures TotalDeduction(sevs) >= 3 * |sevs|
  {
    if sevs != [] {
      TotalDeductionZero(sevs[1..]);
    }
  }

  /** The score is perfect exactly when there is no issue, no missing
      section and every keyword (if any) is found. */
  lemma ScorePerfectIff(issues: seq<AtsIssue>, kms: seq<KeywordMatch>, missing: seq<string>)
    ensures CalculateScore(issues, kms, missing) == 1.0 <==>
            && issues == []
            && missing == []
            && forall i :: 0 <= i < |kms| ==> kms[i].foundInResume
  {
    TotalDeductionZero(Severities(issues));
    KeywordDeductionBounds(kms);
    MatchedAll(kms);
  }

  /** More issues never raise the score. */
  lemma ScoreAntitone(issues: seq<AtsIssue>, more: seq<AtsIssue>, kms: seq<KeywordMatch>, missing: seq<string>)
    ensures CalculateScore(issues + more, kms, missing) <= CalculateScore(issues, kms, missing)
  {
    assert Severities(issues + more) == Severities(issues) + Severities(more);
    TotalDeductionAppend(Severities(issues), Severities(more));
  }

  /** A missing section becomes a high-severity issue of the "sections"
      category. */
  function MissingSectionIssue(name: string): (x: AtsIssue)
    ensures Category(x.kind) == "sections" && x.severity == High && x.lineNumber.None?
  {
    AtsIssue(MissingSection(name), High, None)
  }

  /** One issue per missing section, in order. */
  function MissingSectionIssues(missing: seq<string>): (r: seq<AtsIssue>)
    ensures |r| == |missing|
    ensures forall i :: 0 <= i < |missing| ==> r[i] == MissingSectionIssue(missing[i])
  {
    seq(|missing|, i requires 0 <= i < |missing| => MissingSectionIssue(missing[i]))
  }

  lemma {:induction false} MissingDeduction(missing: seq<string>)
    ensures TotalDeduction(Severities(MissingSectionIssues(missing))) == 15 * |missing|
  {
    if missing != [] {
      MissingDeduction(missing[1..]);
      assert Severities(MissingSectionIssues(missing))[1..] == Severities(MissingSectionIssues(missing[1..]));
    }
  }

  /** Each missing section costs 25 points: 15 for its high-severity issue
      and 10 for the section itself. */
  lemma MissingSectionsCost(issues: seq<AtsIssue>, kms: seq<KeywordMatch>, missing: seq<string>)
    ensures RawScore(issues + MissingSectionIssues(missing), kms, missing)
            == RawScore(issues, kms, []) - 25.0 * |missing| as real
  {
    var extra := MissingSectionIssues(missing);
    assert Severities(issues + extra) == Severities(issues) + Severities(extra);
    TotalDeductionAppend(Severities(issues), Severities(extra));
    MissingDeduction(missing);
  }

  /** The ATS report. */
  datatype AtsReport = AtsReport(
    score: real,
    sectionsFound: seq<string>,
    sectionsMissing: seq<string>,
    issues: seq<AtsIssue>,
    keywordMatches: seq<KeywordMatch>)

  /** The keyword matches: none without a readable job description. */
  function Keywords(resume: string, job: Option<JobHits>): (r: seq<KeywordMatch>)
    ensures job.None? ==> r == []
  {
    match job
    case None => []
    case Some(j) => MatchKeywords(resume, ExtractKeywords(j))
  }

  /** The issues of the checks followed by one high-severity issue per
      missing section, as `main` appends them. */
  function WithMissingSections(issues: seq<AtsIssue>, missing: seq<string>): (r: seq<AtsIssue>)
    ensures |r| == |issues| + |missing|
    ensures r[..|issues|] == issues
    ensures forall i :: 0 <= i < |missing| ==> r[|issues| + i] == MissingSectionIssue(missing[i])
  {
    issues + MissingSectionIssues(missing)
  }

  /** The analysis `main` runs: format and content issues, the section
      check with one issue per missing section, the keyword matches, and
      the score over all of them. `job` is `None` when no job description
      was given or it could not be read. */
  function Analyze(pats: seq<SectionPattern>, resume: string, facts: DocFacts, job: Option<JobHits>): (r: AtsReport)
    ensures 0.0 <= r.score <= 1.0
    ensures forall y :: y in r.sectionsMissing <==> y in RequiredSections && y !in r.sectionsFound
  {
    var kms := Keywords(resume, job);
    var sections := CheckSections(pats, resume);
    var issues := WithMissingSections(CheckAtsIssues(resume, facts), sections.1);
    AtsReport(CalculateScore(issues, kms, sections.1), sections.0, sections.1, issues, kms)
  }

  /** The report's score is perfect exactly when the checks raise nothing,
      every required section is found and every keyword is found. */
  lemma AnalyzePerfectIff(pats: seq<SectionPattern>, resume: string, facts: DocFacts, job: Option<JobHits>)
    ensures Analyze(pats, resume, facts, job).score == 1.0 <==>
            && CheckAtsIssues(resume, facts) == []
            && CheckSections(pats, resume).1 == []
            && forall i :: 0 <= i < |Keywords(resume, job)| ==> Keywords(resume, job)[i].foundInResume
  {
    var missing := CheckSections(pats, resume).1;
    ScorePerfectIff(WithMissingSections(CheckAtsIssues(resume, facts), missing), Keywords(resume, job), missing);
  }
}
