/**
 The buzzword detector: a table of categories, each with a severity and a
 list of words with suggested replacements, compiled into one catalogue of
 whole-word, case-insensitive triggers; a trigger is cancelled when one of
 the word's allowed-context patterns occurs anywhere in the lower-cased
 line. Every line is examined (headings included) and every reporting word
 yields its own match. The score is normalised by the number of non-blank
 lines.

 Allowed-context patterns are abstract: each is a search that says whether
 it occurs somewhere in the lower-cased line.
 */
module Buzzwords {
  import opened Wrappers
  import opened Text
  import opened Severity
  import opened Collecting
  import Scoring

  /** One word of a category with its suggested replacement. */
  datatype WordEntry = WordEntry(word: string, suggestion: string)

  /** One category of the table: its name, the severity all its words share,
      and its words in table order. */
  datatype Category = Category(name: string, severity: Severity, words: seq<WordEntry>)

  /** A compiled buzzword. The trigger is the whole word `word`, matched
      ignoring case. */
  datatype Definition = Definition(
    word: string,
    suggestion: string,
    category: string,
    severity: Severity,
    allowedContexts: seq<string -> bool>)

  /** One reported buzzword. */
  datatype BuzzwordMatch = BuzzwordMatch(
    lineNumber: nat,
    text: string,
    buzzword: string,
    category: string,
    suggestion: string,
    severity: Severity)

  /* ---------------------------------------------------------------------- */
  /* Compiling the table                                                     */
  /* ---------------------------------------------------------------------- */

  /** The allowed contexts of a word: its exception entry, or none. */
  function ContextsFor(exceptions: map<string, seq<string -> bool>>, word: string): seq<string -> bool>
  {
    if word in exceptions then exceptions[word] else []
  }

  /** The definition compiled from word `e` of category `c`. */
  function DefinitionOf(c: Category, e: WordEntry, exceptions: map<string, seq<string -> bool>>): Definition
  {
    Definition(e.word, e.suggestion, c.name, c.severity, ContextsFor(exceptions, e.word))
  }

  /** Number of words in the first `n` categories. */
  function WordsBefore(cats: seq<Category>, n: nat): nat
    requires n <= |cats|
  {
    if n == 0 then 0 else WordsBefore(cats, n - 1) + |cats[n - 1].words|
  }

  function CompileCategory(c: Category, exceptions: map<string, seq<string -> bool>>): (r: seq<Definition>)
    ensures |r| == |c.words|
  {
    seq(|c.words|, k requires 0 <= k < |c.words| => DefinitionOf(c, c.words[k], exceptions))
  }

  /** `compile_buzzwords` over the first `n` categories: category by
      category, word by word. */
  function CompileFirst(cats: seq<Category>, exceptions: map<string, seq<string -> bool>>, n: nat): (r: seq<Definition>)
    requires n <= |cats|
    ensures |r| == WordsBefore(cats, n)
  {
    if n == 0 then [] else CompileFirst(cats, exceptions, n - 1) + CompileCategory(cats[n - 1], exceptions)
  }

  /** `compile_buzzwords`: one definition per word of the table. */
  function CompileBuzzwords(cats: seq<Category>, exceptions: map<string, seq<string -> bool>>): (r: seq<Definition>)
    ensures |r| == WordsBefore(cats, |cats|)
  {
    CompileFirst(cats, exceptions, |cats|)
  }

  lemma {:induction false} CompileFirstAt(cats: seq<Category>, exceptions: map<string, seq<string -> bool>>, n: nat, c: nat, k: nat)
    requires c < n <= |cats| && k < |cats[c].words|
    ensures WordsBefore(cats, c) + k < WordsBefore(cats, n)
    ensures CompileFirst(cats, exceptions, n)[WordsBefore(cats, c) + k] == DefinitionOf(cats[c], cats[c].words[k], exceptions)
    decreases n
  {
    var r := CompileFirst(cats, exceptions, n);
    var prev := CompileFirst(cats, exceptions, n - 1);
    if c == n - 1 {
      assert r[WordsBefore(cats, c) + k] == CompileCategory(cats[c], exceptions)[k];
    } else {
      CompileFirstAt(cats, exceptions, n - 1, c, k);
      assert r[WordsBefore(cats, c) + k] == prev[WordsBefore(cats, c) + k];
    }
  }

  /** Word `k` of category `c` compiles to the definition at position
      `WordsBefore(cats, c) + k`, carrying the word, its suggestion, the
      category's name and severity, and the word's allowed contexts. */
  lemma CompiledAt(cats: seq<Category>, exceptions: map<string, seq<string -> bool>>, c: nat, k: nat)
    requires c < |cats| && k < |cats[c].words|
    ensures WordsBefore(cats, c) + k < |CompileBuzzwords(cats, exceptions)|
    ensures CompileBuzzwords(cats, exceptions)[WordsBefore(cats, c) + k] == DefinitionOf(cats[c], cats[c].words[k], exceptions)
  {
    CompileFirstAt(cats, exceptions, |cats|, c, k);
  }

  lemma {:induction false} CompileFirstFrom(cats: seq<Category>, exceptions: map<string, seq<string -> bool>>, n: nat, i: nat)
    requires n <= |cats| && i < WordsBefore(cats, n)
    ensures exists c: nat, k: nat :: && c < n && k < |cats[c].words|
                                     && WordsBefore(cats, c) + k == i
                                     && CompileFirst(cats, exceptions, n)[i] == DefinitionOf(cats[c], cats[c].words[k], exceptions)
    decreases n
  {
    var r := CompileFirst(cats, exceptions, n);
    var prev := CompileFirst(cats, exceptions, n - 1);
    if i < WordsBefore(cats, n - 1) {
      CompileFirstFrom(cats, exceptions, n - 1, i);
      var c: nat, k: nat :| && c < n - 1 && k < |cats[c].words|
                            && WordsBefore(cats, c) + k == i
                            && prev[i] == DefinitionOf(cats[c], cats[c].words[k], exceptions);
      assert r[i] == prev[i];
    } else {
      var k: nat := i - WordsBefore(cats, n - 1);
      assert r[i] == CompileCategory(cats[n - 1], exceptions)[k];
    }
  }

  /** Conversely, every compiled definition comes from some word of some
      category, with its fields unchanged. */
  lemma CompiledFrom(cats: seq<Category>, exceptions: map<string, seq<string -> bool>>, i: nat)
    requires i < |CompileBuzzwords(cats, exceptions)|
    ensures exists c: nat, k: nat :: && c < |cats| && k < |cats[c].words|
                                     && WordsBefore(cats, c) + k == i
                                     && CompileBuzzwords(cats, exceptions)[i] == DefinitionOf(cats[c], cats[c].words[k], exceptions)
  {
    CompileFirstFrom(cats, exceptions, |cats|, i);
  }

  /* ---------------------------------------------------------------------- */
  /* One line                                                                */
  /* ---------------------------------------------------------------------- */

  /** The `for ctx_pattern in allowed_contexts` loop, which stops at the
      first context that occurs. */
  function ContextAllowed(ctxs: seq<string -> bool>, lineLower: string): bool
  {
    if ctxs == [] then false
    else if ctxs[0](lineLower) then true
    else ContextAllowed(ctxs[1..], lineLower)
  }

  /** The loop finds a context exactly when one of them occurs. */
  lemma {:induction false} ContextAllowedIff(ctxs: seq<string -> bool>, lineLower: string)
    ensures ContextAllowed(ctxs, lineLower) <==> exists k :: 0 <= k < |ctxs| && ctxs[k](lineLower)
  {
    if ctxs != [] && !ctxs[0](lineLower) {
      ContextAllowedIff(ctxs[1..], lineLower);
      assert forall k :: 1 <= k < |ctxs| ==> ctxs[k] == ctxs[1..][k - 1];
    }
  }

  /** Definition `d` reports a match on `line`: its word is found in the
      lower-cased line and none of its allowed contexts occurs there. */
  predicate Reports(d: Definition, line: string)
  {
    var lineLower := Lower(line);
    FindWholeWord(lineLower, d.word, 0).Some? && !ContextAllowed(d.allowedContexts, lineLower)
  }

  /** In terms of the line as written: the word occurs in it as a whole
      word, ignoring case, and no allowed context occurs in its lower-cased
      form. */
  lemma ReportsIff(d: Definition, line: string)
    ensures Reports(d, line) <==>
            && ContainsWholeWord(line, d.word)
            && !exists k :: 0 <= k < |d.allowedContexts| && d.allowedContexts[k](Lower(line))
  {
    FindWholeWordFinds(Lower(line), d.word);
    WholeWordIgnoresLower(line, d.word);
    ContextAllowedIff(d.allowedContexts, Lower(line));
  }

  /** A word without an exception entry has no allowed contexts, so every
      occurrence of it is reported. */
  lemma NoExceptionAlwaysReported(cats: seq<Category>, exceptions: map<string, seq<string -> bool>>, c: nat, k: nat, line: string)
    requires c < |cats| && k < |cats[c].words|
    requires cats[c].words[k].word !in exceptions
    requires ContainsWholeWord(line, cats[c].words[k].word)
    ensures WordsBefore(cats, c) + k < |CompileBuzzwords(cats, exceptions)|
    ensures Reports(CompileBuzzwords(cats, exceptions)[WordsBefore(cats, c) + k], line)
  {
    CompiledAt(cats, exceptions, c, k);
    ReportsIff(CompileBuzzwords(cats, exceptions)[WordsBefore(cats, c) + k], line);
  }

  /** The match definition `d` reports on line number `n`. */
  function MatchOf(d: Definition, line: string, n: nat): BuzzwordMatch
  {
    BuzzwordMatch(n, Strip(line), d.word, d.category, d.suggestion, d.severity)
  }

  /** What each definition yields on the line, in catalogue order: its
      match when it reports, nothing otherwise. */
  function LineOptions(defs: seq<Definition>, line: string, n: nat): (opts: seq<Option<BuzzwordMatch>>)
    ensures |opts| == |defs|
  {
    seq(|defs|, j requires 0 <= j < |defs| => if Reports(defs[j], line) then Some(MatchOf(defs[j], line, n)) else None)
  }

  /** The matches one line yields: the inner loop over the whole catalogue. */
  function LineMatches(defs: seq<Definition>, line: string, n: nat): (r: seq<BuzzwordMatch>)
    ensures |r| <= |defs|
    ensures forall k :: 0 <= k < |r| ==> r[k].lineNumber == n
  {
    LineNumbered(defs, line, n);
    Present(LineOptions(defs, line, n), 0)
  }

  lemma LineNumbered(defs: seq<Definition>, line: string, n: nat)
    ensures forall k :: 0 <= k < |Present(LineOptions(defs, line, n), 0)| ==>
              Present(LineOptions(defs, line, n), 0)[k].lineNumber == n
  {
    var opts := LineOptions(defs, line, n);
    var idx := PresentFrom(opts, 0);
    forall k | 0 <= k < |idx| ensures Present(opts, 0)[k].lineNumber == n {
      assert opts[idx[k]] == Some(Present(opts, 0)[k]);
    }
  }

  /** The positions of the definitions that report on `line`, in catalogue
      order. */
  ghost predicate ReportingPositions(defs: seq<Definition>, line: string, idx: seq<nat>)
  {
    && (forall k :: 0 <= k < |idx| ==> idx[k] < |defs|)
    && (forall a, b :: 0 <= a < b < |idx| ==> idx[a] < idx[b])
    && (forall j: nat :: j in idx <==> j < |defs| && Reports(defs[j], line))
  }

  /** One line yields exactly one match per reporting definition, in
      catalogue order, each carrying the stripped line and the definition's
      word, category, suggestion and severity. */
  lemma LineMatchesFrom(defs: seq<Definition>, line: string, n: nat) returns (idx: seq<nat>)
    ensures ReportingPositions(defs, line, idx)
    ensures |LineMatches(defs, line, n)| == |idx|
    ensures forall k :: 0 <= k < |idx| ==> LineMatches(defs, line, n)[k] == MatchOf(defs[idx[k]], line, n)
  {
    var opts := LineOptions(defs, line, n);
    assert LineMatches(defs, line, n) == Present(opts, 0);
    idx := PresentFrom(opts, 0);
    forall j: nat ensures j in idx <==> j < |defs| && Reports(defs[j], line) {
      if j < |defs| {
        assert opts[j].Some? == Reports(defs[j], line);
      }
    }
    forall k | 0 <= k < |idx| ensures Present(opts, 0)[k] == MatchOf(defs[idx[k]], line, n) {
      assert opts[idx[k]] == Some(Present(opts, 0)[k]);
    }
  }

  lemma LineMatchesSpec(defs: seq<Definition>, line: string, n: nat)
    ensures exists idx :: && ReportingPositions(defs, line, idx)
                          && |LineMatches(defs, line, n)| == |idx|
                          && forall k :: 0 <= k < |idx| ==> LineMatches(defs, line, n)[k] == MatchOf(defs[idx[k]], line, n)
  {
    var idx := LineMatchesFrom(defs, line, n);
  }

  /* ---------------------------------------------------------------------- */
  /* The whole document                                                      */
  /* ---------------------------------------------------------------------- */

  /** The matches of the first `m` lines. */
  function DetectFirst(defs: seq<Definition>, lines: seq<string>, m: nat): (r: seq<BuzzwordMatch>)
    requires m <= |lines|
    ensures forall k :: 0 <= k < |r| ==> 1 <= r[k].lineNumber <= m
    ensures forall a, b :: 0 <= a < b < |r| ==> r[a].lineNumber <= r[b].lineNumber
  {
    if m == 0 then []
    else
      var prev := DetectFirst(defs, lines, m - 1);
      var here := LineMatches(defs, lines[m - 1], m);
      var r := prev + here;
      assert forall k :: |prev| <= k < |r| ==> r[k] == here[k - |prev|];
      r
  }

  /** `detect_buzzwords`: all matches of all lines of `content`, by line. */
  function Detect(defs: seq<Definition>, content: string): (r: seq<BuzzwordMatch>)
    ensures forall k :: 0 <= k < |r| ==> 1 <= r[k].lineNumber <= |Split(content)|
    ensures forall a, b :: 0 <= a < b < |r| ==> r[a].lineNumber <= r[b].lineNumber
  {
    DetectFirst(defs, Split(content), |Split(content)|)
  }

  lemma {:induction false} DetectFirstPrefix(defs: seq<Definition>, lines: seq<string>, m: nat, n: nat)
    requires m <= n <= |lines|
    ensures DetectFirst(defs, lines, m) <= DetectFirst(defs, lines, n)
    decreases n - m
  {
    if m < n {
      DetectFirstPrefix(defs, lines, m, n - 1);
    }
  }

  /** `r[lo..hi]` is `here`, and it holds exactly the entries of `r` on line
      `i + 1`. */
  ghost predicate IsLineBlock(r: seq<BuzzwordMatch>, i: nat, lo: nat, hi: nat, here: seq<BuzzwordMatch>)
  {
    && lo <= hi <= |r|
    && r[lo..hi] == here
    && (forall k :: 0 <= k < |r| ==> (r[k].lineNumber == i + 1 <==> lo <= k < hi))
  }

  lemma LinesBlock(defs: seq<Definition>, lines: seq<string>, i: nat)
    requires i < |lines|
    ensures IsLineBlock(DetectFirst(defs, lines, |lines|), i, |DetectFirst(defs, lines, i)|,
                        |DetectFirst(defs, lines, i + 1)|, LineMatches(defs, lines[i], i + 1))
  {
    var before := DetectFirst(defs, lines, i);
    var upto := DetectFirst(defs, lines, i + 1);
    var r := DetectFirst(defs, lines, |lines|);
    DetectFirstPrefix(defs, lines, i + 1, |lines|);
    var here := LineMatches(defs, lines[i], i + 1);
    assert upto == before + here;
    assert r[..|upto|] == upto;
    assert r[|before|..|upto|] == here;
    forall k | 0 <= k < |r| ensures r[k].lineNumber == i + 1 <==> |before| <= k < |upto| {
      if k < |before| {
        assert r[k] == before[k];
      } else if k < |upto| {
        assert r[k] == here[k - |before|];
      } else {
        AfterPrefix(defs, lines, i + 1, |lines|, k);
      }
    }
  }

  /** Where the matches of line `i + 1` begin in the output. */
  function LineStart(defs: seq<Definition>, content: string, i: nat): nat
    requires i <= |Split(content)|
  {
    |DetectFirst(defs, Split(content), i)|
  }

  /** The matches of line `i + 1` are one contiguous block, between the
      matches of the earlier lines and those of the later ones, and that
      block is exactly what the line yields on its own. */
  lemma DetectLineBlock(defs: seq<Definition>, content: string, i: nat)
    requires i < |Split(content)|
    ensures IsLineBlock(Detect(defs, content), i, LineStart(defs, content, i), LineStart(defs, content, i + 1),
                        LineMatches(defs, Split(content)[i], i + 1))
  {
    LinesBlock(defs, Split(content), i);
  }

  /** Matches beyond the first `m` lines' matches lie on later lines. */
  lemma {:induction false} AfterPrefix(defs: seq<Definition>, lines: seq<string>, m: nat, n: nat, k: nat)
    requires m <= n <= |lines| && |DetectFirst(defs, lines, m)| <= k < |DetectFirst(defs, lines, n)|
    ensures DetectFirst(defs, lines, n)[k].lineNumber > m
    decreases n - m
  {
    var prev := DetectFirst(defs, lines, n - 1);
    var r := DetectFirst(defs, lines, n);
    if k < |prev| {
      DetectFirstPrefix(defs, lines, m, n - 1);
      AfterPrefix(defs, lines, m, n - 1, k);
      assert r[k] == prev[k];
    } else {
      assert r[k] == LineMatches(defs, lines[n - 1], n)[k - |prev|];
    }
  }

  /** Headings are not skipped: a heading line on which some definition
      reports yields a match. */
  lemma HeadingsAreScanned(defs: seq<Definition>, content: string, i: nat, j: nat)
    requires i < |Split(content)| && IsHeading(Split(content)[i])
    requires j < |defs| && Reports(defs[j], Split(content)[i])
    ensures exists k :: 0 <= k < |Detect(defs, content)| && Detect(defs, content)[k] == MatchOf(defs[j], Split(content)[i], i + 1)
  {
    var line := Split(content)[i];
    var here := LineMatches(defs, line, i + 1);
    var m := MatchIndex(defs, line, i + 1, j);
    DetectLineBlock(defs, content, i);
    var lo, hi := LineStart(defs, content, i), LineStart(defs, content, i + 1);
    BlockElement(Detect(defs, content), lo, hi, here, m);
  }

  /** Where the match of reporting definition `j` sits among a line's matches. */
  lemma MatchIndex(defs: seq<Definition>, line: string, n: nat, j: nat) returns (m: nat)
    requires j < |defs| && Reports(defs[j], line)
    ensures m < |LineMatches(defs, line, n)| && LineMatches(defs, line, n)[m] == MatchOf(defs[j], line, n)
  {
    var idx := LineMatchesFrom(defs, line, n);
    assert j in idx;
    m :| 0 <= m < |idx| && idx[m] == j;
  }

  lemma BlockElement(r: seq<BuzzwordMatch>, lo: nat, hi: nat, here: seq<BuzzwordMatch>, m: nat)
    requires lo <= hi <= |r| && r[lo..hi] == here && m < |here|
    ensures lo + m < |r| && r[lo + m] == here[m]
  {
    assert r[lo..hi][m] == r[lo + m];
  }

  /* ---------------------------------------------------------------------- */
  /* Scoring                                                                 */
  /* ---------------------------------------------------------------------- */

  function Severities(matches: seq<BuzzwordMatch>): (s: seq<Severity>)
    ensures |s| == |matches|
  {
    seq(|matches|, k requires 0 <= k < |matches| => matches[k].severity)
  }

  /** `calculate_score` before rounding: one minus the weighted matches
      over a budget of 1.5 weight units per line (at least 1), floored at 0;
      no lines scores 1. */
  function Score(matches: seq<BuzzwordMatch>, totalLines: nat): (r: real)
    ensures 0.0 <= r <= 1.0
    ensures totalLines == 0 ==> r == 1.0
    ensures matches == [] ==> r == 1.0
  {
    if totalLines == 0 then 1.0
    else Scoring.BudgetScore(TotalWeight(Severities(matches)), totalLines as real * 1.5)
  }

  /** With at least one line the score is perfect exactly when no buzzword
      was reported. */
  lemma ScorePerfectIffNoMatches(matches: seq<BuzzwordMatch>, totalLines: nat)
    requires totalLines > 0
    ensures Score(matches, totalLines) == 1.0 <==> matches == []
  {
    TotalWeightBounds(Severities(matches));
    Scoring.BudgetScorePerfect(TotalWeight(Severities(matches)), totalLines as real * 1.5);
  }

  /** The score drops to 0 exactly when the weighted matches reach 1.5 per
      line. */
  lemma ScoreZeroIffOverBudget(matches: seq<BuzzwordMatch>, totalLines: nat)
    requires totalLines > 0
    ensures Score(matches, totalLines) == 0.0 <==> TotalWeight(Severities(matches)) as real >= totalLines as real * 1.5
  {
    Scoring.BudgetScoreZero(TotalWeight(Severities(matches)), totalLines as real * 1.5);
  }

  /** What `main` computes: the matches and the score over all non-blank
      lines, headings included. */
  function Analyze(defs: seq<Definition>, content: string): (r: (seq<BuzzwordMatch>, real))
    ensures 0.0 <= r.1 <= 1.0
    ensures NonBlankLineCount(content) == 0 ==> r.1 == 1.0
    ensures r.0 == [] ==> r.1 == 1.0
  {
    var matches := Detect(defs, content);
    (matches, Score(matches, NonBlankLineCount(content)))
  }
}
