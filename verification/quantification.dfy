/**
 The quantification helper: a catalogue of claim patterns (team leadership,
 performance improvement, reduction, ...), each with follow-up questions and
 a template, ordered by descending priority. Every non-blank, non-heading
 line is matched against the catalogue; a line that already carries a
 number together with a percentage, a dollar amount or a multiplier is left
 alone, and otherwise the first matching pattern yields one unquantified
 claim. A single claim can also be analysed on its own, falling back to
 general questions when no pattern matches.

 The claim patterns are abstract: each says whether it matches somewhere in
 a line. The four quantification tests are modelled concretely.
 */
module Quantification {
  import opened Wrappers
  import opened Text
  import opened Collecting
  import Catalogue

  /** One entry of the claim table, as written (the priority may be absent). */
  datatype PatternDefinition = PatternDefinition(
    search: string -> bool,
    claimType: string,
    questions: seq<string>,
    template: string,
    priority: Option<int>)

  /** A compiled claim pattern; an absent priority has become 0. */
  datatype ClaimPattern = ClaimPattern(
    search: string -> bool,
    claimType: string,
    questions: seq<string>,
    template: string,
    priority: int)

  /** One claim that could be quantified. */
  datatype UnquantifiedClaim = UnquantifiedClaim(
    lineNumber: nat,
    originalText: string,
    claimType: string,
    questions: seq<string>,
    template: string)

  /** The result of analysing one claim on its own. */
  datatype ClaimAnalysis = ClaimAnalysis(
    claim: string,
    claimType: string,
    questions: seq<string>,
    template: string)

  /* ---------------------------------------------------------------------- */
  /* Compiling the catalogue                                                 */
  /* ---------------------------------------------------------------------- */

  function CompileOne(d: PatternDefinition): ClaimPattern
  {
    ClaimPattern(d.search, d.claimType, d.questions, d.template,
                 match d.priority case Some(p) => p case None => 0)
  }

  /** The priority a compiled pattern is sorted on. */
  function PriorityOf(p: ClaimPattern): int
  {
    p.priority
  }

  /** The priority of each definition once compiled. */
  function Priorities(defs: seq<PatternDefinition>): seq<int>
  {
    Catalogue.CompiledKeys(defs, CompileOne, PriorityOf)
  }

  /** `compile_claim_patterns`: every definition compiled, then stably sorted by
      descending priority (`Catalogue.CompileSorted`). */
  function CompileClaimPatterns(defs: seq<PatternDefinition>): seq<ClaimPattern>
  {
    Catalogue.CompileSorted(defs, CompileOne, PriorityOf)
  }

  /* ---------------------------------------------------------------------- */
  /* Is a line already quantified?                                           */
  /* ---------------------------------------------------------------------- */

  /** Some position from `from` on satisfies `at`: the left-to-right scan of
      `re.search`. */
  predicate OccursFrom(s: string, at: (string, nat) -> bool, from: nat)
    decreases |s| - from
  {
    from < |s| && (at(s, from) || OccursFrom(s, at, from + 1))
  }

  /** The scan succeeds exactly when some position at or after `from` satisfies `at`. */
  lemma {:induction false} OccursFromIff(s: string, at: (string, nat) -> bool, from: nat)
    ensures OccursFrom(s, at, from) <==> exists i :: from <= i < |s| && at(s, i)
    decreases |s| - from
  {
    if from < |s| {
      OccursFromIff(s, at, from + 1);
      if !at(s, from) {
        assert forall i :: from <= i < |s| && at(s, i) ==> from + 1 <= i;
      }
    }
  }

  /** `\d+` matches at `i`. */
  predicate DigitAt(s: string, i: nat)
  {
    i < |s| && IsDigit(s[i])
  }

  /** From position `j` on, `s` continues with whitespace and then `%`. */
  predicate SpacesThenPercent(s: string, j: nat)
    decreases |s| - j
  {
    j < |s| && (s[j] == '%' || (IsSpace(s[j]) && SpacesThenPercent(s, j + 1)))
  }

  /** `\d+\s*%` matches at `i`: a digit followed by optional whitespace and
      `%` (a longer run of digits adds nothing to whether there is a match). */
  predicate PercentageAt(s: string, i: nat)
  {
    i < |s| && IsDigit(s[i]) && SpacesThenPercent(s, i + 1)
  }

  /** `\$[\d,]+` matches at `i`: a dollar sign followed by a digit or a comma. */
  predicate DollarAt(s: string, i: nat)
  {
    i + 1 < |s| && s[i] == '$' && (IsDigit(s[i + 1]) || s[i + 1] == ',')
  }

  /** `\d+x\b`, ignoring case, matches at `i`: a digit, then `x` or `X`,
      then the end of the line or a character that is not a word character. */
  predicate MultiplierAt(s: string, i: nat)
  {
    && i + 1 < |s| && IsDigit(s[i])
    && (s[i + 1] == 'x' || s[i + 1] == 'X')
    && (i + 2 == |s| || !IsWordChar(s[i + 2]))
  }

  predicate HasNumbers(s: string)
  {
    OccursFrom(s, DigitAt, 0)
  }

  predicate HasPercentage(s: string)
  {
    OccursFrom(s, PercentageAt, 0)
  }

  predicate HasDollar(s: string)
  {
    OccursFrom(s, DollarAt, 0)
  }

  predicate HasMultiplier(s: string)
  {
    OccursFrom(s, MultiplierAt, 0)
  }

  /** The line already has adequate quantification: a number, and a
      percentage, a dollar amount or a multiplier. */
  predicate Quantified(s: string)
  {
    HasNumbers(s) && (HasPercentage(s) || HasDollar(s) || HasMultiplier(s))
  }

  /** A percentage and a multiplier each contain a digit, so only the dollar
      test needs the separate number test: the line is quantified exactly
      when it has a percentage, a multiplier, or a dollar amount together
      with some digit. */
  lemma QuantifiedIff(s: string)
    ensures Quantified(s) <==> HasPercentage(s) || HasMultiplier(s) || (HasDollar(s) && HasNumbers(s))
  {
    OccursFromIff(s, DigitAt, 0);
    OccursFromIff(s, PercentageAt, 0);
    OccursFromIff(s, MultiplierAt, 0);
    if HasPercentage(s) {
      var i :| 0 <= i < |s| && PercentageAt(s, i);
      assert DigitAt(s, i);
    }
    if HasMultiplier(s) {
      var i :| 0 <= i < |s| && MultiplierAt(s, i);
      assert DigitAt(s, i);
    }
  }

  /** `$,` matches the dollar test but holds no digit, so a line whose only
      figure is `$,` is not quantified. */
  lemma DollarWithoutDigitsIsNotQuantified()
    ensures HasDollar("cut costs by $,") && !Quantified("cut costs by $,")
  {
    var s := "cut costs by $,";
    OccursFromIff(s, DollarAt, 0);
    OccursFromIff(s, DigitAt, 0);
    assert DollarAt(s, 13);
    assert forall i :: 0 <= i < |s| ==> !DigitAt(s, i);
  }

  /** `3x` at the end of a line is a multiplier, and with its digit the
      line is quantified. */
  lemma MultiplierAtEndIsQuantified()
    ensures Quantified("grew 3x")
  {
    var s := "grew 3x";
    OccursFromIff(s, DigitAt, 0);
    OccursFromIff(s, MultiplierAt, 0);
    assert DigitAt(s, 5) && MultiplierAt(s, 5);
  }

  /** Inside a word, as in `3xl`, the `x` is not a multiplier. */
  lemma MultiplierNeedsBoundary()
    ensures !HasMultiplier("a 3xl")
  {
    var t := "a 3xl";
    OccursFromIff(t, MultiplierAt, 0);
    assert forall i :: 0 <= i < |t| && i != 2 ==> !IsDigit(t[i]);
    assert !MultiplierAt(t, 2);
  }

  /* ---------------------------------------------------------------------- */
  /* One line                                                                */
  /* ---------------------------------------------------------------------- */

  /** The first pattern, from `i` on, that matches `text`. */
  function FirstMatch(ps: seq<ClaimPattern>, text: string, i: nat): (r: Option<nat>)
    requires i <= |ps|
    ensures r.Some? ==> i <= r.value < |ps|
    decreases |ps| - i
  {
    if i == |ps| then None
    else if ps[i].search(text) then Some(i)
    else FirstMatch(ps, text, i + 1)
  }

  /** `FirstMatch` finds the leftmost matching pattern, or reports that
      none matches. */
  lemma {:induction false} FirstMatchSpec(ps: seq<ClaimPattern>, text: string, i: nat)
    requires i <= |ps|
    ensures match FirstMatch(ps, text, i)
            case Some(w) => && i <= w < |ps| && ps[w].search(text)
                            && forall j :: i <= j < w ==> !ps[j].search(text)
            case None => forall j :: i <= j < |ps| ==> !ps[j].search(text)
    decreases |ps| - i
  {
    if i < |ps| && !ps[i].search(text) {
      FirstMatchSpec(ps, text, i + 1);
    }
  }

  /** The inner loop of `find_unquantified_claims` from pattern `i` on: a
      matching pattern on a quantified line is passed over (`continue`),
      otherwise the first matching pattern ends the loop (`break`). */
  function PatternLoop(ps: seq<ClaimPattern>, line: string, i: nat): (r: Option<nat>)
    requires i <= |ps|
    ensures r.Some? ==> i <= r.value < |ps|
    decreases |ps| - i
  {
    if i == |ps| then None
    else if ps[i].search(line) then
      if Quantified(line) then PatternLoop(ps, line, i + 1) else Some(i)
    else PatternLoop(ps, line, i + 1)
  }

  /** Since the quantification test does not depend on the pattern, the loop
      yields nothing on a quantified line and the first matching pattern on
      any other. */
  lemma {:induction false} PatternLoopIsFirstMatch(ps: seq<ClaimPattern>, line: string, i: nat)
    requires i <= |ps|
    ensures PatternLoop(ps, line, i) == if Quantified(line) then None else FirstMatch(ps, line, i)
    decreases |ps| - i
  {
    if i < |ps| {
      PatternLoopIsFirstMatch(ps, line, i + 1);
    }
  }

  /** A content line that is not already quantified. */
  predicate Unquantified(line: string)
  {
    IsContentLine(line) && !Quantified(line)
  }

  /** The claim line `line`, numbered `n`, yields. */
  function ClaimAt(ps: seq<ClaimPattern>, line: string, n: nat): (r: Option<UnquantifiedClaim>)
    ensures r.Some? ==> r.value.lineNumber == n && Unquantified(line)
  {
    PatternLoopIsFirstMatch(ps, line, 0);
    if !IsContentLine(line) then None
    else
      match PatternLoop(ps, line, 0)
      case None => None
      case Some(w) =>
        Some(UnquantifiedClaim(n, Strip(line), ps[w].claimType, ps[w].questions, ps[w].template))
  }

  /** A line yields a claim exactly when it is a content line, it is not
      already quantified, and some pattern matches it; the claim carries the
      line number, the stripped line, and the type, questions and template
      of the first matching pattern. */
  lemma ClaimAtSpec(ps: seq<ClaimPattern>, line: string, n: nat)
    ensures ClaimAt(ps, line, n).Some? <==>
            && IsContentLine(line) && !Quantified(line)
            && exists j :: 0 <= j < |ps| && ps[j].search(line)
    ensures ClaimAt(ps, line, n).Some? ==>
              var c := ClaimAt(ps, line, n).value;
              && c.lineNumber == n
              && c.originalText == Strip(line)
              && exists w :: && 0 <= w < |ps| && ps[w].search(line)
                             && (forall j :: 0 <= j < w ==> !ps[j].search(line))
                             && c.claimType == ps[w].claimType
                             && c.questions == ps[w].questions
                             && c.template == ps[w].template
  {
    PatternLoopIsFirstMatch(ps, line, 0);
    FirstMatchSpec(ps, line, 0);
  }

  /* ---------------------------------------------------------------------- */
  /* The whole document                                                      */
  /* ---------------------------------------------------------------------- */

  /** The per-line step of `find_unquantified_claims` as a function of a
      line and its number. */
  function ClaimFn(ps: seq<ClaimPattern>): (string, nat) -> Option<UnquantifiedClaim>
  {
    (line: string, n: nat) => ClaimAt(ps, line, n)
  }

  function LineOf(c: UnquantifiedClaim): nat
  {
    c.lineNumber
  }

  lemma ClaimStamps(ps: seq<ClaimPattern>)
    ensures Stamps(ClaimFn(ps), LineOf)
    ensures forall line, n :: ClaimFn(ps)(line, n).Some? ==> Unquantified(line)
    ensures forall line, n :: ClaimFn(ps)(line, n).Some? ==> IsContentLine(line)
  {
  }

  /** The claims of a list of lines, numbered from 1. */
  function FindLines(ps: seq<ClaimPattern>, lines: seq<string>): (r: seq<UnquantifiedClaim>)
    ensures forall a, b :: 0 <= a < b < |r| ==> r[a].lineNumber < r[b].lineNumber
  {
    ClaimStamps(ps);
    ByLineOrdered(lines, ClaimFn(ps), LineOf);
    Present(ByLine(lines, ClaimFn(ps)), 0)
  }

  /** `find_unquantified_claims`: the claims of the lines of `content`, in
      strictly increasing line order, so at most one per line. */
  function FindUnquantifiedClaims(ps: seq<ClaimPattern>, content: string): (r: seq<UnquantifiedClaim>)
    ensures forall a, b :: 0 <= a < b < |r| ==> r[a].lineNumber < r[b].lineNumber
  {
    FindLines(ps, Split(content))
  }

  /** Line `i + 1` has a claim among `r`. */
  predicate HasClaimOnLine(r: seq<UnquantifiedClaim>, i: nat)
  {
    HasNumber(r, LineOf, i)
  }

  lemma LinesComplete(ps: seq<ClaimPattern>, lines: seq<string>, i: nat)
    requires i < |lines|
    ensures HasClaimOnLine(FindLines(ps, lines), i) <==> ClaimAt(ps, lines[i], i + 1).Some?
  {
    ClaimStamps(ps);
    ByLineHit(lines, ClaimFn(ps), LineOf, i);
  }

  /** A line has a claim exactly when it is a content line that is not
      already quantified and that some pattern matches. */
  lemma FindComplete(ps: seq<ClaimPattern>, content: string, i: nat)
    requires i < |Split(content)|
    ensures HasClaimOnLine(FindUnquantifiedClaims(ps, content), i) <==>
            && IsContentLine(Split(content)[i]) && !Quantified(Split(content)[i])
            && exists j :: 0 <= j < |ps| && ps[j].search(Split(content)[i])
  {
    LinesComplete(ps, Split(content), i);
    ClaimAtSpec(ps, Split(content)[i], i + 1);
  }

  /** `c` is the claim of its own line of `lines`. */
  ghost predicate ClaimOfItsLine(ps: seq<ClaimPattern>, lines: seq<string>, c: UnquantifiedClaim)
  {
    && 1 <= c.lineNumber <= |lines|
    && ClaimAt(ps, lines[c.lineNumber - 1], c.lineNumber) == Some(c)
  }

  /** Each reported claim is exactly the claim of its line. */
  lemma FindReportsClaimAt(ps: seq<ClaimPattern>, content: string, k: nat)
    requires k < |FindUnquantifiedClaims(ps, content)|
    ensures ClaimOfItsLine(ps, Split(content), FindUnquantifiedClaims(ps, content)[k])
  {
    var lines := Split(content);
    var r := FindUnquantifiedClaims(ps, content);
    assert r == Present(ByLine(lines, ClaimFn(ps)), 0);
    ClaimStamps(ps);
    ByLineFromItsLine(lines, ClaimFn(ps), LineOf, k);
    var j := r[k].lineNumber - 1;
    assert ClaimFn(ps)(lines[j], j + 1) == Some(r[k]);
  }

  /** A reported claim's line is a content line that is not quantified. */
  lemma FindReportsUnquantifiedLine(ps: seq<ClaimPattern>, content: string, k: nat)
    requires k < |FindUnquantifiedClaims(ps, content)|
    ensures 1 <= FindUnquantifiedClaims(ps, content)[k].lineNumber <= |Split(content)|
    ensures Unquantified(Split(content)[FindUnquantifiedClaims(ps, content)[k].lineNumber - 1])
  {
    ClaimStamps(ps);
    ByLineOnlyWhere(Split(content), ClaimFn(ps), LineOf, Unquantified, k);
  }

  /** At most one claim per content line. */
  lemma FindAtMostContentLines(ps: seq<ClaimPattern>, content: string)
    ensures |FindUnquantifiedClaims(ps, content)| <= ContentLineCount(content)
  {
    ClaimStamps(ps);
    ByLineAtMost(Split(content), ClaimFn(ps), IsContentLine);
  }

  /* ---------------------------------------------------------------------- */
  /* A single claim                                                          */
  /* ---------------------------------------------------------------------- */

  /** `analyze_single_claim`: the first matching pattern's type, questions
      and template, or the type "general" with the default questions and
      template. The quantification test is not applied here. */
  function AnalyzeSingleClaim(ps: seq<ClaimPattern>, claim: string,
                              defaultQuestions: seq<string>, defaultTemplate: string): (r: ClaimAnalysis)
    ensures r.claim == claim
    ensures forall w :: 0 <= w < |ps| && ps[w].search(claim) && (forall j :: 0 <= j < w ==> !ps[j].search(claim)) ==>
              r == ClaimAnalysis(claim, ps[w].claimType, ps[w].questions, ps[w].template)
    ensures (forall j :: 0 <= j < |ps| ==> !ps[j].search(claim)) ==>
              r == ClaimAnalysis(claim, "general", defaultQuestions, defaultTemplate)
  {
    FirstMatchSpec(ps, claim, 0);
    match FirstMatch(ps, claim, 0)
    case Some(w) => ClaimAnalysis(claim, ps[w].claimType, ps[w].questions, ps[w].template)
    case None => ClaimAnalysis(claim, "general", defaultQuestions, defaultTemplate)
  }

  /** The fallback is used exactly when no pattern matches. */
  lemma GeneralIffNoPattern(ps: seq<ClaimPattern>, claim: string, dq: seq<string>, dt: string)
    ensures FirstMatch(ps, claim, 0).None? <==> forall j :: 0 <= j < |ps| ==> !ps[j].search(claim)
    ensures (forall j :: 0 <= j < |ps| ==> !ps[j].search(claim)) ==>
              AnalyzeSingleClaim(ps, claim, dq, dt) == ClaimAnalysis(claim, "general", dq, dt)
  {
    FirstMatchSpec(ps, claim, 0);
  }

  /** The two entry points agree: a claim found on a line has the type,
      questions and template that analysing that line on its own gives. */
  lemma FindAgreesWithAnalyze(ps: seq<ClaimPattern>, line: string, n: nat, dq: seq<string>, dt: string)
    requires ClaimAt(ps, line, n).Some?
    ensures var c := ClaimAt(ps, line, n).value;
            var a := AnalyzeSingleClaim(ps, line, dq, dt);
            c.claimType == a.claimType && c.questions == a.questions && c.template == a.template
  {
    PatternLoopIsFirstMatch(ps, line, 0);
  }

  /** Analysing a line that is already quantified still reports the
      pattern it matches: only the document scan skips quantified lines. */
  lemma AnalyzeIgnoresQuantification(ps: seq<ClaimPattern>, line: string, n: nat, dq: seq<string>, dt: string, w: nat)
    requires Quantified(line)
    requires w < |ps| && ps[w].search(line) && forall j :: 0 <= j < w ==> !ps[j].search(line)
    ensures ClaimAt(ps, line, n).None?
    ensures AnalyzeSingleClaim(ps, line, dq, dt).claimType == ps[w].claimType
  {
    PatternLoopIsFirstMatch(ps, line, 0);
    FirstMatchSpec(ps, line, 0);
  }
}
