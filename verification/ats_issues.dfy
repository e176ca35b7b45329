/**
 The format and content checks of the ATS checker. A pass over the lines
 flags the first table line (a line with at least two `|`) and up to three
 lines heavy with special characters; then one issue is added for each
 document-wide check that fails: an image reference, no email address, no
 phone number, no LinkedIn profile, no dates, a word count outside 200 to
 1000, fewer than five bullet points.

 The document-wide regular expressions are not modelled: their outcomes
 (and the word and bullet counts) are the fields of `DocFacts`.
 */
module AtsIssues {
  import opened Wrappers
  import opened Text
  import opened Collecting
  import opened Severity

  /** What an issue reports; the payload of the formatted messages is kept
      where it is a number or a name. */
  datatype IssueKind =
    | Table
    | SpecialCharacters
    | Images
    | NoEmail
    | NoPhone
    | NoLinkedIn
    | NoDates
    | TooShort(words: nat)
    | TooLong(words: nat)
    | FewBullets(count: nat)
    | MissingSection(name: string)

  /** `ATSIssue`; the suggestion text is left out, and the category follows
      from the kind. */
  datatype AtsIssue = AtsIssue(kind: IssueKind, severity: Severity, lineNumber: Option<nat>)

  /** The category each kind of issue is filed under. */
  function Category(k: IssueKind): string
  {
    match k
    case Table | SpecialCharacters | Images | FewBullets(_) => "formatting"
    case NoEmail | NoPhone | NoLinkedIn => "contact"
    case NoDates | TooShort(_) | TooLong(_) => "content"
    case MissingSection(_) => "sections"
  }

  /** `MIN_WORDS`, `MAX_WORDS` and `MIN_BULLET_POINTS`. */
  const MinWords: nat := 200
  const MaxWords: nat := 1000
  const MinBulletPoints: nat := 5

  /** At most this many lines get a special-character issue. */
  const MaxSpecialLines: nat := 3

  /* ---------------------------------------------------------------------- */
  /* The pass over the lines                                                 */
  /* ---------------------------------------------------------------------- */

  /** `'|' in line and line.count('|') >= 2`. */
  predicate IsTableLine(line: string)
  {
    Count(line, '|') >= 2
  }

  /** A character of the class `[^\w\s.,;:'"()\-/@#&]`. */
  predicate IsSpecialChar(c: char)
  {
    !IsWordChar(c) && !IsSpace(c) && c !in ".,;:'\"()-/@#&"
  }

  /** `len(re.findall(r'[^\w\s.,;:\'\"()\-/@#&]', line))`. */
  function SpecialCount(line: string): nat
  {
    CountWhere(line, IsSpecialChar, 0)
  }

  /** More than five special characters. */
  predicate IsSpecialLine(line: string)
  {
    SpecialCount(line) > 5
  }

  function TableIssue(n: nat): AtsIssue
  {
    AtsIssue(Table, Medium, Some(n))
  }

  function SpecialIssue(n: nat): AtsIssue
  {
    AtsIssue(SpecialCharacters, Low, Some(n))
  }

  /** The issues the loop of `check_ats_issues` raises on line `i + 1`,
      given whether the table issue was already raised and how many lines
      already got a special-character issue. */
  function LineIssues(lines: seq<string>, i: nat, flagged: bool, specials: nat): seq<AtsIssue>
    requires i < |lines|
  {
    (if !flagged && IsTableLine(lines[i]) then [TableIssue(i + 1)] else [])
    + (if IsSpecialLine(lines[i]) && specials < MaxSpecialLines then [SpecialIssue(i + 1)] else [])
  }

  /** The loop of `check_ats_issues` from line `i + 1` on. */
  function ScanLines(lines: seq<string>, i: nat, flagged: bool, specials: nat): seq<AtsIssue>
    requires i <= |lines|
    decreases |lines| - i
  {
    if i == |lines| then []
    else
      var table := !flagged && IsTableLine(lines[i]);
      var special := IsSpecialLine(lines[i]) && specials < MaxSpecialLines;
      LineIssues(lines, i, flagged, specials)
      + ScanLines(lines, i + 1, flagged || table, if special then specials + 1 else specials)
  }

  /** Line numbers of the lines from `i` on that satisfy `ok`, in order. */
  function LinesWhere(lines: seq<string>, ok: string -> bool, i: nat): seq<nat>
    requires i <= |lines|
    decreases |lines| - i
  {
    if i == |lines| then []
    else (if ok(lines[i]) then [i + 1] else []) + LinesWhere(lines, ok, i + 1)
  }

  /** The line numbers of the issues of kind `k`, in order. */
  function LinesOfKind(issues: seq<AtsIssue>, k: IssueKind): seq<nat>
  {
    if issues == [] then []
    else
      (if issues[0].kind == k then [match issues[0].lineNumber case Some(n) => n case None => 0] else [])
      + LinesOfKind(issues[1..], k)
  }

  lemma {:induction false} LinesOfKindAppend(a: seq<AtsIssue>, b: seq<AtsIssue>, k: IssueKind)
    ensures LinesOfKind(a + b, k) == LinesOfKind(a, k) + LinesOfKind(b, k)
  {
    if a == [] {
      assert a + b == b;
    } else {
      assert (a + b)[0] == a[0];
      assert (a + b)[1..] == a[1..] + b;
      LinesOfKindAppend(a[1..], b, k);
    }
  }

  /** The first `n` entries of `xs` (all of them when there are fewer). */
  function FirstN(xs: seq<nat>, n: nat): (r: seq<nat>)
    ensures |r| <= n
  {
    if |xs| <= n then xs else xs[..n]
  }

  lemma FirstNCons(x: nat, xs: seq<nat>, n: nat)
    ensures FirstN([x] + xs, n + 1) == [x] + FirstN(xs, n)
  {
    if |xs| > n {
      assert ([x] + xs)[..n + 1] == [x] + xs[..n];
    }
  }

  lemma FirstNZero(xs: seq<nat>)
    ensures FirstN(xs, 0) == []
  {
  }

  /** The line numbers of one line's issues, kind by kind. */
  lemma LineIssuesKinds(lines: seq<string>, i: nat, flagged: bool, specials: nat)
    requires i < |lines|
    ensures LinesOfKind(LineIssues(lines, i, flagged, specials), Table)
            == if !flagged && IsTableLine(lines[i]) then [i + 1] else []
    ensures LinesOfKind(LineIssues(lines, i, flagged, specials), SpecialCharacters)
            == if IsSpecialLine(lines[i]) && specials < MaxSpecialLines then [i + 1] else []
  {
    var t: seq<AtsIssue> := if !flagged && IsTableLine(lines[i]) then [TableIssue(i + 1)] else [];
    var s: seq<AtsIssue> := if IsSpecialLine(lines[i]) && specials < MaxSpecialLines then [SpecialIssue(i + 1)] else [];
    LinesOfKindAppend(t, s, Table);
    LinesOfKindAppend(t, s, SpecialCharacters);
  }

  /** The table issue is raised once, on the first table line, unless it
      was already raised. */
  lemma {:induction false} TableOnce(lines: seq<string>, i: nat, flagged: bool, specials: nat)
    requires i <= |lines|
    ensures LinesOfKind(ScanLines(lines, i, flagged, specials), Table) ==
            if flagged then [] else FirstN(LinesWhere(lines, IsTableLine, i), 1)
    decreases |lines| - i
  {
    if i < |lines| {
      var table := !flagged && IsTableLine(lines[i]);
      var special := IsSpecialLine(lines[i]) && specials < MaxSpecialLines;
      var rest := ScanLines(lines, i + 1, flagged || table, if special then specials + 1 else specials);
      var here := LineIssues(lines, i, flagged, specials);
      var later := LinesWhere(lines, IsTableLine, i + 1);
      assert ScanLines(lines, i, flagged, specials) == here + rest;
      LinesOfKindAppend(here, rest, Table);
      LineIssuesKinds(lines, i, flagged, specials);
      TableOnce(lines, i + 1, flagged || table, if special then specials + 1 else specials);
      if table {
        assert LinesOfKind(here, Table) == [i + 1];
        assert LinesOfKind(rest, Table) == [];
        assert LinesWhere(lines, IsTableLine, i) == [i + 1] + later;
        FirstNCons(i + 1, later, 0);
        FirstNZero(later);
      } else if flagged {
        assert LinesOfKind(here, Table) == [];
      } else {
        assert LinesOfKind(here, Table) == [];
        assert LinesWhere(lines, IsTableLine, i) == later;
      }
    }
  }

  /** The first special lines from line `i + 1` on, one line at a time. */
  lemma SpecialLinesStep(lines: seq<string>, i: nat, specials: nat)
    requires i < |lines| && specials <= MaxSpecialLines
    ensures var special := IsSpecialLine(lines[i]) && specials < MaxSpecialLines;
            FirstN(LinesWhere(lines, IsSpecialLine, i), MaxSpecialLines - specials)
            == (if special then [i + 1] else [])
               + FirstN(LinesWhere(lines, IsSpecialLine, i + 1), MaxSpecialLines - (if special then specials + 1 else specials))
  {
    var later := LinesWhere(lines, IsSpecialLine, i + 1);
    if IsSpecialLine(lines[i]) && specials < MaxSpecialLines {
      assert LinesWhere(lines, IsSpecialLine, i) == [i + 1] + later;
      FirstNCons(i + 1, later, MaxSpecialLines - (specials + 1));
    } else if IsSpecialLine(lines[i]) {
      FirstNZero(later);
      FirstNZero(LinesWhere(lines, IsSpecialLine, i));
    } else {
      assert LinesWhere(lines, IsSpecialLine, i) == later;
    }
  }

  /** Special-character issues go to the first lines with more than five
      special characters, until three lines have one. */
  lemma {:induction false} SpecialFirstThree(lines: seq<string>, i: nat, flagged: bool, specials: nat)
    requires i <= |lines| && specials <= MaxSpecialLines
    ensures LinesOfKind(ScanLines(lines, i, flagged, specials), SpecialCharacters) ==
            FirstN(LinesWhere(lines, IsSpecialLine, i), MaxSpecialLines - specials)
    decreases |lines| - i
  {
    if i < |lines| {
      var table := !flagged && IsTableLine(lines[i]);
      var special := IsSpecialLine(lines[i]) && specials < MaxSpecialLines;
      var next := if special then specials + 1 else specials;
      var rest := ScanLines(lines, i + 1, flagged || table, next);
      var here := LineIssues(lines, i, flagged, specials);
      var head: seq<nat> := if special then [i + 1] else [];
      LineIssuesKinds(lines, i, flagged, specials);
      SpecialLinesStep(lines, i, specials);
      calc {
        LinesOfKind(ScanLines(lines, i, flagged, specials), SpecialCharacters);
        LinesOfKind(here + rest, SpecialCharacters);
        { LinesOfKindAppend(here, rest, SpecialCharacters); }
        LinesOfKind(here, SpecialCharacters) + LinesOfKind(rest, SpecialCharacters);
        { SpecialFirstThree(lines, i + 1, flagged || table, next); }
        head + FirstN(LinesWhere(lines, IsSpecialLine, i + 1), MaxSpecialLines - next);
        FirstN(LinesWhere(lines, IsSpecialLine, i), MaxSpecialLines - specials);
      }
    }
  }

  /** The pass raises nothing but table and special-character issues. */
  lemma {:induction false} ScanLinesKinds(lines: seq<string>, i: nat, flagged: bool, specials: nat)
    requires i <= |lines|
    ensures forall x :: x in ScanLines(lines, i, flagged, specials) ==>
              x.lineNumber.Some? && (x == TableIssue(x.lineNumber.value) || x == SpecialIssue(x.lineNumber.value))
    decreases |lines| - i
  {
    if i < |lines| {
      var table := !flagged && IsTableLine(lines[i]);
      var special := IsSpecialLine(lines[i]) && specials < MaxSpecialLines;
      ScanLinesKinds(lines, i + 1, flagged || table, if special then specials + 1 else specials);
    }
  }

  /* ---------------------------------------------------------------------- */
  /* Document-wide checks                                                    */
  /* ---------------------------------------------------------------------- */

  /** The outcomes of the document-wide searches of `check_ats_issues`. */
  datatype DocFacts = DocFacts(
    hasImage: bool,
    hasEmail: bool,
    hasPhone: bool,
    hasLinkedIn: bool,
    hasDates: bool,
    words: nat,
    bullets: nat)

  const ImageIssue := AtsIssue(Images, High, None)
  const NoEmailIssue := AtsIssue(NoEmail, High, None)
  const NoPhoneIssue := AtsIssue(NoPhone, Medium, None)
  const NoLinkedInIssue := AtsIssue(NoLinkedIn, Low, None)
  const NoDatesIssue := AtsIssue(NoDates, High, None)

  function TooShortIssue(words: nat): AtsIssue
  {
    AtsIssue(TooShort(words), Medium, None)
  }

  function TooLongIssue(words: nat): AtsIssue
  {
    AtsIssue(TooLong(words), Low, None)
  }

  function FewBulletsIssue(count: nat): AtsIssue
  {
    AtsIssue(FewBullets(count), Medium, None)
  }

  function When(c: bool, x: AtsIssue): (r: seq<AtsIssue>)
    ensures forall y :: y in r <==> c && y == x
    ensures |r| == Indicator(c)
  {
    if c then [x] else []
  }

  function Indicator(c: bool): nat
  {
    if c then 1 else 0
  }

  /** The image and contact checks of `check_ats_issues`, in order. */
  function ImageAndContactIssues(f: DocFacts): seq<AtsIssue>
  {
    When(f.hasImage, ImageIssue)
    + When(!f.hasEmail, NoEmailIssue)
    + When(!f.hasPhone, NoPhoneIssue)
    + When(!f.hasLinkedIn, NoLinkedInIssue)
  }

  /** The dates, word-count and bullet checks of `check_ats_issues`. */
  function ContentIssues(f: DocFacts): seq<AtsIssue>
  {
    When(!f.hasDates, NoDatesIssue)
    + (if f.words < MinWords then [TooShortIssue(f.words)]
       else if f.words > MaxWords then [TooLongIssue(f.words)]
       else [])
    + When(f.bullets < MinBulletPoints, FewBulletsIssue(f.bullets))
  }

  /** The document-wide part of `check_ats_issues`. */
  function DocIssues(f: DocFacts): seq<AtsIssue>
  {
    ImageAndContactIssues(f) + ContentIssues(f)
  }

  /** Which issue kinds each half can raise. */
  lemma HalvesKinds(f: DocFacts)
    ensures forall x :: x in ImageAndContactIssues(f) ==>
              x.lineNumber.None? && (x.kind == Images || x.kind == NoEmail || x.kind == NoPhone || x.kind == NoLinkedIn)
    ensures forall x :: x in ContentIssues(f) ==>
              x.lineNumber.None? && (x.kind == NoDates || x.kind.TooShort? || x.kind.TooLong? || x.kind.FewBullets?)
  {
  }

  /** One issue for each contact check that fails, none for one that passes. */
  lemma ContactIssuesIff(f: DocFacts)
    ensures NoEmailIssue in DocIssues(f) <==> !f.hasEmail
    ensures NoPhoneIssue in DocIssues(f) <==> !f.hasPhone
    ensures NoLinkedInIssue in DocIssues(f) <==> !f.hasLinkedIn
  {
    HalvesKinds(f);
  }

  /** An image reference, missing dates and few bullets each give one issue. */
  lemma FormatIssuesIff(f: DocFacts)
    ensures ImageIssue in DocIssues(f) <==> f.hasImage
    ensures NoDatesIssue in DocIssues(f) <==> !f.hasDates
    ensures FewBulletsIssue(f.bullets) in DocIssues(f) <==> f.bullets < MinBulletPoints
  {
    HalvesKinds(f);
  }

  /** Below 200 words the resume is too short, above 1000 too long, and in
      between the word count raises nothing. */
  lemma WordCountIssuesIff(f: DocFacts)
    ensures TooShortIssue(f.words) in DocIssues(f) <==> f.words < MinWords
    ensures TooLongIssue(f.words) in DocIssues(f) <==> f.words > MaxWords
  {
    HalvesKinds(f);
  }

  /** No issue is counted twice: the number of document issues is the
      number of failed checks. */
  lemma DocIssuesCount(f: DocFacts)
    ensures |DocIssues(f)| == Indicator(f.hasImage) + Indicator(!f.hasEmail) + Indicator(!f.hasPhone)
                              + Indicator(!f.hasLinkedIn) + Indicator(!f.hasDates)
                              + Indicator(f.words < MinWords || f.words > MaxWords)
                              + Indicator(f.bullets < MinBulletPoints)
  {
  }

  /** Document issues are tied to no line, and none of them is a table or
      special-character issue. */
  lemma DocIssuesUnlined(f: DocFacts)
    ensures forall x :: x in DocIssues(f) ==> x.lineNumber.None? && x.kind != Table && x.kind != SpecialCharacters
  {
    HalvesKinds(f);
  }

  /** `check_ats_issues`: the line pass, then the document-wide checks. */
  function CheckAtsIssues(content: string, f: DocFacts): seq<AtsIssue>
  {
    ScanLines(Split(content), 0, false, 0) + DocIssues(f)
  }

  /** Over a whole document: at most one table issue, on the first table
      line; special-character issues on the first three special lines; then
      the document issues. */
  lemma CheckAtsIssuesSpec(content: string, f: DocFacts)
    ensures LinesOfKind(CheckAtsIssues(content, f), Table) == FirstN(LinesWhere(Split(content), IsTableLine, 0), 1)
    ensures LinesOfKind(CheckAtsIssues(content, f), SpecialCharacters) ==
            FirstN(LinesWhere(Split(content), IsSpecialLine, 0), MaxSpecialLines)
  {
    var lines := Split(content);
    var scan := ScanLines(lines, 0, false, 0);
    TableOnce(lines, 0, false, 0);
    SpecialFirstThree(lines, 0, false, 0);
    LinesOfKindAppend(scan, DocIssues(f), Table);
    LinesOfKindAppend(scan, DocIssues(f), SpecialCharacters);
    DocIssuesUnlined(f);
    NoLineKinds(DocIssues(f));
  }

  /** Issues that carry no line number are neither table nor
      special-character issues in the document checks. */
  lemma {:induction false} NoLineKinds(issues: seq<AtsIssue>)
    requires forall x :: x in issues ==> x.kind != Table && x.kind != SpecialCharacters
    ensures LinesOfKind(issues, Table) == [] && LinesOfKind(issues, SpecialCharacters) == []
  {
    if issues != [] {
      assert issues[0] in issues;
      assert forall x :: x in issues[1..] ==> x in issues;
      NoLineKinds(issues[1..]);
    }
  }
}
