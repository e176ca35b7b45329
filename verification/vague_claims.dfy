/**
 The vague-claim detector: a catalogue of weighted patterns, each optionally
 cancelled when the text right after its first match begins with an
 "unless followed by" pattern, applied to every non-blank, non-heading line;
 at most one claim per line, the surviving pattern of highest priority; and
 a specificity score normalised by the number of content lines.

 The regular expressions themselves are abstract: a pattern's `search` gives
 the span of its first match in a line (or nothing), and its
 `unlessFollowedBy` says whether that pattern matches at the start of a
 string.
 */
module VagueClaims {
  import opened Wrappers
  import opened Text
  import opened Severity
  import opened Collecting
  import Catalogue
  import Scoring

  /** `match.start()` and `match.end()` of a regular-expression match. */
  datatype Span = Span(start: nat, end: nat)

  /** One entry of the pattern table, as written (the priority may be absent). */
  datatype PatternDefinition = PatternDefinition(
    search: string -> Option<Span>,
    unlessFollowedBy: Option<string -> bool>,
    issue: string,
    suggestion: string,
    severity: Severity,
    priority: Option<int>)

  /** A compiled pattern; an absent priority has become 0. */
  datatype CompiledPattern = CompiledPattern(
    search: string -> Option<Span>,
    unlessFollowedBy: Option<string -> bool>,
    issue: string,
    suggestion: string,
    severity: Severity,
    priority: int)

  /** One reported claim. */
  datatype VagueClaim = VagueClaim(
    lineNumber: nat,
    text: string,
    matched: string,
    issues: seq<string>,
    suggestion: string,
    severity: Severity)

  /* ---------------------------------------------------------------------- */
  /* Compiling the catalogue                                                 */
  /* ---------------------------------------------------------------------- */

  function CompileOne(d: PatternDefinition): CompiledPattern
  {
    CompiledPattern(d.search, d.unlessFollowedBy, d.issue, d.suggestion, d.severity,
                    match d.priority case Some(p) => p case None => 0)
  }

  /** The priority a compiled pattern is sorted on. */
  function PriorityOf(p: CompiledPattern): int
  {
    p.priority
  }

  /** The priority of each definition once compiled. */
  function Priorities(defs: seq<PatternDefinition>): seq<int>
  {
    Catalogue.CompiledKeys(defs, CompileOne, PriorityOf)
  }

  /** `compile_patterns`: every definition compiled, then stably sorted by
      descending priority (`Catalogue.CompileSorted`). */
  function CompilePatterns(defs: seq<PatternDefinition>): seq<CompiledPattern>
  {
    Catalogue.CompileSorted(defs, CompileOne, PriorityOf)
  }

  /* ---------------------------------------------------------------------- */
  /* One line                                                                */
  /* ---------------------------------------------------------------------- */

  /** The pattern matches the line and its exception does not apply: the
      text after the end of the first match does not begin with the
      "unless followed by" pattern. */
  predicate Survives(p: CompiledPattern, line: string)
  {
    match p.search(line)
    case None => false
    case Some(m) =>
      match p.unlessFollowedBy
      case None => true
      case Some(unless) => !unless(Suffix(line, m.end))
  }

  /** Pattern `w` is the one the detector reports: it survives, its priority
      beats the initial `-1`, no surviving pattern has a higher priority, and
      every earlier surviving pattern has a strictly lower one. */
  ghost predicate IsWinner(ps: seq<CompiledPattern>, line: string, w: nat)
  {
    && w < |ps|
    && Survives(ps[w], line)
    && ps[w].priority > -1
    && (forall j :: 0 <= j < |ps| && Survives(ps[j], line) ==> ps[j].priority <= ps[w].priority)
    && (forall j :: 0 <= j < w && Survives(ps[j], line) ==> ps[j].priority < ps[w].priority)
  }

  /** No surviving pattern can be reported. */
  ghost predicate NoCandidate(ps: seq<CompiledPattern>, line: string)
  {
    forall j :: 0 <= j < |ps| && Survives(ps[j], line) ==> ps[j].priority <= -1
  }

  /** The inner loop of `detect_vague_claims` from pattern `i` on, with the
      best pattern so far and its priority: a pattern replaces the best one
      only with a strictly higher priority. */
  function Scan(ps: seq<CompiledPattern>, line: string, i: nat, best: Option<nat>, bestPriority: int): (r: Option<nat>)
    requires i <= |ps| && (best.Some? ==> best.value < i)
    ensures r.Some? ==> r.value < |ps|
    decreases |ps| - i
  {
    if i == |ps| then best
    else if Survives(ps[i], line) && ps[i].priority > bestPriority then
      Scan(ps, line, i + 1, Some(i), ps[i].priority)
    else
      Scan(ps, line, i + 1, best, bestPriority)
  }

  /** The loop invariant: the best pattern so far is the winner among the
      first `i` patterns. */
  lemma {:induction false} ScanSpec(ps: seq<CompiledPattern>, line: string, i: nat, best: Option<nat>, bestPriority: int)
    requires i <= |ps|
    requires best.Some? ==> && best.value < i
                            && Survives(ps[best.value], line)
                            && ps[best.value].priority == bestPriority > -1
                            && (forall j :: 0 <= j < best.value && Survives(ps[j], line) ==> ps[j].priority < bestPriority)
    requires best.None? ==> bestPriority == -1
    requires forall j :: 0 <= j < i && Survives(ps[j], line) ==> ps[j].priority <= bestPriority
    ensures var r := Scan(ps, line, i, best, bestPriority);
            && (r.Some? ==> IsWinner(ps, line, r.value))
            && (r.None? ==> NoCandidate(ps, line))
    decreases |ps| - i
  {
    if i < |ps| {
      if Survives(ps[i], line) && ps[i].priority > bestPriority {
        ScanSpec(ps, line, i + 1, Some(i), ps[i].priority);
      } else {
        ScanSpec(ps, line, i + 1, best, bestPriority);
      }
    }
  }

  /** The pattern reported for a line, if any. */
  function BestMatch(ps: seq<CompiledPattern>, line: string): (r: Option<nat>)
    ensures r.Some? ==> r.value < |ps|
  {
    Scan(ps, line, 0, None, -1)
  }

  /** `BestMatch` returns the winner, and returns nothing exactly when no
      surviving pattern has a priority above -1. */
  lemma BestMatchSpec(ps: seq<CompiledPattern>, line: string)
    ensures BestMatch(ps, line).Some? ==> IsWinner(ps, line, BestMatch(ps, line).value)
    ensures BestMatch(ps, line).None? <==> NoCandidate(ps, line)
  {
    ScanSpec(ps, line, 0, None, -1);
  }

  /** Python's `s[i:j]` for non-negative `i` and `j`. */
  function Slice(s: string, i: nat, j: nat): (r: string)
    ensures i <= j <= |s| ==> r == s[i..j]
    ensures i >= j || i >= |s| ==> r == []
  {
    Suffix(Take(s, j), i)
  }

  /** The claim reported for line number `n`, if any. */
  function ClaimAt(ps: seq<CompiledPattern>, line: string, n: nat): (r: Option<VagueClaim>)
    ensures r.Some? ==> r.value.lineNumber == n && IsContentLine(line)
  {
    if !IsContentLine(line) then None
    else
      match BestMatch(ps, line)
      case None => None
      case Some(w) =>
        BestMatchSpec(ps, line);
        var m := ps[w].search(line).value;
        Some(VagueClaim(n, Strip(line), Slice(line, m.start, m.end), [ps[w].issue], ps[w].suggestion, ps[w].severity))
  }

  /** A line yields a claim exactly when it is a content line on which some
      pattern survives with a priority above -1; the claim carries the line
      number, the stripped line, the text of the winning pattern's match, and
      that pattern's issue, suggestion and severity. */
  lemma ClaimAtSpec(ps: seq<CompiledPattern>, line: string, n: nat)
    ensures ClaimAt(ps, line, n).Some? <==> IsContentLine(line) && !NoCandidate(ps, line)
    ensures ClaimAt(ps, line, n).Some? ==>
              var c := ClaimAt(ps, line, n).value;
              && c.lineNumber == n
              && c.text == Strip(line)
              && exists w: nat :: && IsWinner(ps, line, w)
                                  && c.issues == [ps[w].issue]
                                  && c.suggestion == ps[w].suggestion
                                  && c.severity == ps[w].severity
                                  && ps[w].search(line).Some?
                                  && c.matched == Slice(line, ps[w].search(line).value.start,
                                                        ps[w].search(line).value.end)
  {
    BestMatchSpec(ps, line);
    if IsContentLine(line) && BestMatch(ps, line).Some? {
      assert IsWinner(ps, line, BestMatch(ps, line).value);
    }
  }

  /* ---------------------------------------------------------------------- */
  /* The whole document                                                      */
  /* ---------------------------------------------------------------------- */

  /** The per-line step of `detect_vague_claims` as a function of a line and
      its number. */
  function ClaimFn(ps: seq<CompiledPattern>): (string, nat) -> Option<VagueClaim>
  {
    (line: string, n: nat) => ClaimAt(ps, line, n)
  }

  function LineOf(c: VagueClaim): nat
  {
    c.lineNumber
  }

  lemma ClaimStamps(ps: seq<CompiledPattern>)
    ensures Stamps(ClaimFn(ps), LineOf)
    ensures forall line, n :: ClaimFn(ps)(line, n).Some? ==> IsContentLine(line)
  {
  }

  /** The claims of a list of lines, numbered from 1. */
  function DetectLines(ps: seq<CompiledPattern>, lines: seq<string>): (r: seq<VagueClaim>)
    ensures forall a, b :: 0 <= a < b < |r| ==> r[a].lineNumber < r[b].lineNumber
  {
    ClaimStamps(ps);
    ByLineOrdered(lines, ClaimFn(ps), LineOf);
    Present(ByLine(lines, ClaimFn(ps)), 0)
  }

  /** `detect_vague_claims`: the claims of the lines of `content`, in
      strictly increasing line order, so at most one per line. */
  function Detect(ps: seq<CompiledPattern>, content: string): (r: seq<VagueClaim>)
    ensures forall a, b :: 0 <= a < b < |r| ==> r[a].lineNumber < r[b].lineNumber
  {
    DetectLines(ps, Split(content))
  }

  /** Line `i + 1` has a claim among `r`. */
  predicate HasClaimOnLine(r: seq<VagueClaim>, i: nat)
  {
    HasNumber(r, LineOf, i)
  }

  /** `c` is the claim of its own line of `lines`, which is a content line. */
  ghost predicate ClaimOfItsLine(ps: seq<CompiledPattern>, lines: seq<string>, c: VagueClaim)
  {
    && 1 <= c.lineNumber <= |lines|
    && IsContentLine(lines[c.lineNumber - 1])
    && ClaimAt(ps, lines[c.lineNumber - 1], c.lineNumber) == Some(c)
  }

  /** Each claim Detect reports is exactly the claim of its line; in
      particular it is never on a blank or heading line. */
  lemma DetectReportsClaimAt(ps: seq<CompiledPattern>, content: string, k: nat)
    requires k < |Detect(ps, content)|
    ensures ClaimOfItsLine(ps, Split(content), Detect(ps, content)[k])
  {
    ClaimStamps(ps);
    ByLineFromItsLine(Split(content), ClaimFn(ps), LineOf, k);
  }

  lemma LinesComplete(ps: seq<CompiledPattern>, lines: seq<string>, i: nat)
    requires i < |lines|
    ensures HasClaimOnLine(DetectLines(ps, lines), i) <==> ClaimAt(ps, lines[i], i + 1).Some?
  {
    ClaimStamps(ps);
    ByLineHit(lines, ClaimFn(ps), LineOf, i);
  }

  /** A line has a claim exactly when it is a content line on which some
      surviving pattern has a priority above -1. */
  lemma DetectComplete(ps: seq<CompiledPattern>, content: string, i: nat)
    requires i < |Split(content)|
    ensures HasClaimOnLine(Detect(ps, content), i)
            <==> IsContentLine(Split(content)[i]) && !NoCandidate(ps, Split(content)[i])
  {
    LinesComplete(ps, Split(content), i);
    ClaimAtSpec(ps, Split(content)[i], i + 1);
  }

  /** At most one claim per content line. */
  lemma DetectAtMostContentLines(ps: seq<CompiledPattern>, content: string)
    ensures |Detect(ps, content)| <= ContentLineCount(content)
  {
    ClaimStamps(ps);
    ByLineAtMost(Split(content), ClaimFn(ps), IsContentLine);
  }

  /* ---------------------------------------------------------------------- */
  /* Winner selection, restated                                              */
  /* ---------------------------------------------------------------------- */

  /** On a catalogue sorted by descending priority (as `CompilePatterns`
      leaves it) the reported pattern is simply the first surviving one,
      unless its priority is -1 or lower. */
  lemma WinnerIsFirstSurvivor(ps: seq<CompiledPattern>, line: string, f: nat)
    requires forall a, b :: 0 <= a < b < |ps| ==> ps[a].priority >= ps[b].priority
    requires f < |ps| && Survives(ps[f], line)
    requires forall j :: 0 <= j < f ==> !Survives(ps[j], line)
    ensures ps[f].priority > -1 ==> BestMatch(ps, line) == Some(f)
    ensures ps[f].priority <= -1 ==> BestMatch(ps, line) == None
  {
    BestMatchSpec(ps, line);
    var r := BestMatch(ps, line);
    if r.Some? {
      var w := r.value;
      assert ps[w].priority >= ps[f].priority;
      assert f <= w;
      assert w <= f;
    }
  }

  /** The catalogue without pattern `x`. */
  function RemoveAt(ps: seq<CompiledPattern>, x: nat): (q: seq<CompiledPattern>)
    requires x < |ps|
    ensures |q| == |ps| - 1
    ensures forall j :: 0 <= j < |q| ==> q[j] == if j < x then ps[j] else ps[j + 1]
  {
    ps[..x] + ps[x + 1..]
  }

  lemma WinnerWithout(ps: seq<CompiledPattern>, line: string, x: nat, w: nat)
    requires x < |ps| && !Survives(ps[x], line) && IsWinner(ps, line, w)
    ensures w != x && IsWinner(RemoveAt(ps, x), line, if w < x then w else w - 1)
  {
    var q := RemoveAt(ps, x);
    var w' := if w < x then w else w - 1;
    assert q[w'] == ps[w];
    forall j | 0 <= j < |q| && Survives(q[j], line) ensures q[j].priority <= q[w'].priority {
      if j >= x { assert q[j] == ps[j + 1]; }
    }
    forall j | 0 <= j < w' && Survives(q[j], line) ensures q[j].priority < q[w'].priority {
      if j >= x { assert q[j] == ps[j + 1]; }
    }
  }

  lemma NoCandidateWithout(ps: seq<CompiledPattern>, line: string, x: nat)
    requires x < |ps| && NoCandidate(ps, line)
    ensures NoCandidate(RemoveAt(ps, x), line)
  {
    var q := RemoveAt(ps, x);
    forall j | 0 <= j < |q| && Survives(q[j], line) ensures q[j].priority <= -1 {
      if j >= x { assert q[j] == ps[j + 1]; }
    }
  }

  /** A pattern whose exception applies does not stop a lower-priority
      pattern from being reported: the winner is the same as if the excepted
      pattern were not in the catalogue at all. */
  lemma ExceptedPatternIsIgnored(ps: seq<CompiledPattern>, line: string, x: nat)
    requires x < |ps| && !Survives(ps[x], line)
    ensures match BestMatch(ps, line)
            case None => BestMatch(RemoveAt(ps, x), line).None?
            case Some(w) => w != x && BestMatch(RemoveAt(ps, x), line) == Some(if w < x then w else w - 1)
  {
    var q := RemoveAt(ps, x);
    BestMatchSpec(ps, line);
    BestMatchSpec(q, line);
    match BestMatch(ps, line)
    case Some(w) =>
      WinnerWithout(ps, line, x, w);
      WinnerUnique(q, line, if w < x then w else w - 1, BestMatch(q, line));
    case None =>
      NoCandidateWithout(ps, line, x);
  }

  /** There is at most one winner, and `BestMatch` finds it. */
  lemma WinnerUnique(ps: seq<CompiledPattern>, line: string, w: nat, r: Option<nat>)
    requires IsWinner(ps, line, w) && r == BestMatch(ps, line)
    ensures r == Some(w)
  {
    BestMatchSpec(ps, line);
    assert !NoCandidate(ps, line);
    var v := r.value;
    assert v == w;
  }

  /** Where definition `e` went in the compiled catalogue. */
  lemma PositionOf(defs: seq<PatternDefinition>, ps: seq<CompiledPattern>, o: seq<nat>, e: nat) returns (k: nat)
    requires Catalogue.IsPriorityOrder(Priorities(defs), o)
    requires |ps| == |o| && forall k :: 0 <= k < |ps| ==> ps[k] == CompileOne(defs[o[k]])
    requires e < |defs|
    ensures k < |o| && o[k] == e && ps[k] == CompileOne(defs[e])
  {
    assert e in o;
    k :| 0 <= k < |o| && o[k] == e;
  }

  /** Definition `d` survives on `line`, has the highest priority among
      the surviving definitions, and no earlier surviving definition has
      that priority. */
  ghost predicate IsDefinitionWinner(defs: seq<PatternDefinition>, line: string, d: nat)
  {
    && d < |defs|
    && Survives(CompileOne(defs[d]), line)
    && (forall e :: 0 <= e < |defs| && Survives(CompileOne(defs[e]), line) ==>
          CompileOne(defs[e]).priority <= CompileOne(defs[d]).priority)
    && (forall e :: 0 <= e < d && Survives(CompileOne(defs[e]), line) ==>
          CompileOne(defs[e]).priority < CompileOne(defs[d]).priority)
  }

  /** The winner in the sorted catalogue is the definition winner. */
  lemma SortedWinnerIsDefinitionWinner(defs: seq<PatternDefinition>, ps: seq<CompiledPattern>, o: seq<nat>, line: string, w: nat)
    requires Catalogue.IsPriorityOrder(Priorities(defs), o)
    requires |ps| == |o| && forall k :: 0 <= k < |ps| ==> ps[k] == CompileOne(defs[o[k]])
    requires IsWinner(ps, line, w)
    ensures o[w] < |defs| && IsDefinitionWinner(defs, line, o[w])
  {
    var prio := Priorities(defs);
    var d := o[w];
    forall e | 0 <= e < |defs| && Survives(CompileOne(defs[e]), line)
      ensures CompileOne(defs[e]).priority <= CompileOne(defs[d]).priority
    {
      var k := PositionOf(defs, ps, o, e);
    }
    forall e | 0 <= e < d && Survives(CompileOne(defs[e]), line)
      ensures CompileOne(defs[e]).priority < CompileOne(defs[d]).priority
    {
      var k := PositionOf(defs, ps, o, e);
      if w < k {
        assert Catalogue.Precedes(prio, o[w], o[k]);
      }
    }
  }

  /** End to end, in terms of the table as written: the reported pattern is
      the earliest-defined one among the surviving definitions of highest
      priority. */
  lemma WinnerInDefinitionOrder(defs: seq<PatternDefinition>, line: string)
    requires exists d :: 0 <= d < |defs| && Survives(CompileOne(defs[d]), line)
                         && CompileOne(defs[d]).priority > -1
    ensures BestMatch(CompilePatterns(defs), line).Some?
    ensures exists o :: && Catalogue.IsPriorityOrder(Priorities(defs), o)
                        && |o| == |CompilePatterns(defs)|
                        && o[BestMatch(CompilePatterns(defs), line).value] < |defs|
                        && CompilePatterns(defs)[BestMatch(CompilePatterns(defs), line).value]
                           == CompileOne(defs[o[BestMatch(CompilePatterns(defs), line).value]])
                        && IsDefinitionWinner(defs, line, o[BestMatch(CompilePatterns(defs), line).value])
  {
    var ps := CompilePatterns(defs);
    var o :| Catalogue.IsPriorityOrder(Priorities(defs), o) && forall k :: 0 <= k < |ps| ==> ps[k] == CompileOne(defs[o[k]]);
    var d0 :| 0 <= d0 < |defs| && Survives(CompileOne(defs[d0]), line) && CompileOne(defs[d0]).priority > -1;
    var k0 := PositionOf(defs, ps, o, d0);
    BestMatchSpec(ps, line);
    assert !NoCandidate(ps, line);
    SortedWinnerIsDefinitionWinner(defs, ps, o, line, BestMatch(ps, line).value);
  }

  /* ---------------------------------------------------------------------- */
  /* Scoring                                                                 */
  /* ---------------------------------------------------------------------- */

  function Severities(claims: seq<VagueClaim>): (s: seq<Severity>)
    ensures |s| == |claims|
  {
    seq(|claims|, k requires 0 <= k < |claims| => claims[k].severity)
  }

  /** `calculate_score` before rounding: one minus the weighted claims over
      the expected budget of two weight units per three content lines (at
      least 1), floored at 0; a document without content lines scores 1. */
  function Score(claims: seq<VagueClaim>, totalLines: nat): (r: real)
    ensures 0.0 <= r <= 1.0
    ensures totalLines == 0 ==> r == 1.0
    ensures claims == [] ==> r == 1.0
  {
    if totalLines == 0 then 1.0
    else Scoring.BudgetScore(TotalWeight(Severities(claims)), (totalLines as real / 3.0) * 2.0)
  }

  /** With at least one content line the score is perfect exactly when no
      claim was found. */
  lemma ScorePerfectIffNoClaims(claims: seq<VagueClaim>, totalLines: nat)
    requires totalLines > 0
    ensures Score(claims, totalLines) == 1.0 <==> claims == []
  {
    TotalWeightBounds(Severities(claims));
    Scoring.BudgetScorePerfect(TotalWeight(Severities(claims)), (totalLines as real / 3.0) * 2.0);
  }

  /** More claims never raise the score. */
  lemma ScoreAntitone(claims: seq<VagueClaim>, more: seq<VagueClaim>, totalLines: nat)
    ensures Score(claims + more, totalLines) <= Score(claims, totalLines)
  {
    assert Severities(claims + more) == Severities(claims) + Severities(more);
    TotalWeightAppend(Severities(claims), Severities(more));
    if totalLines > 0 {
      Scoring.BudgetScoreAntitone(TotalWeight(Severities(claims)), TotalWeight(Severities(claims + more)),
                                  (totalLines as real / 3.0) * 2.0);
    }
  }

  /** What `main` computes: the claims and the score over content lines. */
  function Analyze(ps: seq<CompiledPattern>, content: string): (r: (seq<VagueClaim>, real))
    ensures 0.0 <= r.1 <= 1.0
    ensures ContentLineCount(content) == 0 ==> r.0 == [] && r.1 == 1.0
    ensures |r.0| <= ContentLineCount(content)
  {
    var claims := Detect(ps, content);
    DetectAtMostContentLines(ps, content);
    (claims, Score(claims, ContentLineCount(content)))
  }
}
