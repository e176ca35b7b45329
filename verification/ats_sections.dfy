/**
 Section detection of the ATS checker: each line that starts with a
 Markdown heading marker is tested against a table of section title
 patterns, the first matching pattern naming the section the line opens.
 The found sections, and the required sections (experience, education,
 skills) that were not found, are reported as sorted lists.

 A title pattern is abstract: it says whether the text after the heading
 marker `#+\s*` begins with one of the section's titles, ignoring case.
 */
module AtsSections {
  import opened Wrappers
  import opened Text
  import opened Collecting
  import opened Ordering

  /** One entry of the section table. */
  datatype SectionPattern = SectionPattern(title: string -> bool, name: string)

  /** `REQUIRED_SECTIONS`. */
  const RequiredSections: seq<string> := ["experience", "education", "skills"]

  /** Number of `#` characters the string starts with. */
  function LeadingHashes(s: string): (n: nat)
    ensures n <= |s|
    ensures forall k :: 0 <= k < n ==> s[k] == '#'
    ensures n == |s| || s[n] != '#'
  {
    if s != [] && s[0] == '#' then 1 + LeadingHashes(s[1..]) else 0
  }

  /** The text after the heading marker `#+\s*` at the start of the line,
      or nothing when the line does not start with `#`. The marker takes
      every leading `#` and the whitespace after them: every title in the
      table begins with a letter, so a shorter marker never lets a title
      match. */
  function HeadingTitle(line: string): (r: Option<string>)
    ensures r.Some? <==> line != [] && line[0] == '#'
    ensures r.Some? ==> |r.value| < |line| && r.value == line[|line| - |r.value|..]
    ensures r.Some? ==> && 1 <= LeadingHashes(line) <= |line| - |r.value|
                        && forall k :: LeadingHashes(line) <= k < |line| - |r.value| ==> IsSpace(line[k])
    ensures r.Some? ==> r.value == [] || !IsSpace(r.value[0])
  {
    if line == [] || line[0] != '#' then None
    else
      var h := LeadingHashes(line);
      var rest := line[h..];
      var n := LeadingSpaces(rest);
      assert rest[n..] == line[h + n..];
      Some(rest[n..])
  }

  /** The marker is every leading `#` and the whitespace after them only: a
      `#` after that whitespace belongs to the title. */
  lemma SecondMarkerIsTitle()
    ensures HeadingTitle("# # Skills") == Some("# Skills")
  {
    assert LeadingHashes("# # Skills") == 1 by {
      assert "# # Skills"[1..] == " # Skills";
    }
    assert "# # Skills"[1..] == " # Skills";
    assert LeadingSpaces(" # Skills") == 1;
    assert " # Skills"[1..] == "# Skills";
  }

  /** `pattern.match(line)`: the pattern matches at the start of the line. */
  predicate Opens(p: SectionPattern, line: string)
  {
    match HeadingTitle(line)
    case None => false
    case Some(t) => p.title(t)
  }

  /** The first pattern, from `i` on, that matches the line. */
  function FirstOpening(pats: seq<SectionPattern>, line: string, i: nat): (r: Option<nat>)
    requires i <= |pats|
    ensures r.Some? ==> i <= r.value < |pats|
    decreases |pats| - i
  {
    if i == |pats| then None
    else if Opens(pats[i], line) then Some(i)
    else FirstOpening(pats, line, i + 1)
  }

  lemma {:induction false} FirstOpeningSpec(pats: seq<SectionPattern>, line: string, i: nat)
    requires i <= |pats|
    ensures match FirstOpening(pats, line, i)
            case Some(w) => && Opens(pats[w], line)
                            && forall j :: i <= j < w ==> !Opens(pats[j], line)
            case None => forall j :: i <= j < |pats| ==> !Opens(pats[j], line)
    decreases |pats| - i
  {
    if i < |pats| && !Opens(pats[i], line) {
      FirstOpeningSpec(pats, line, i + 1);
    }
  }

  /** The section a line opens: the inner loop adds the first matching
      pattern's name and breaks. */
  function SectionOf(pats: seq<SectionPattern>, line: string): Option<string>
  {
    match FirstOpening(pats, line, 0)
    case None => None
    case Some(w) => Some(pats[w].name)
  }

  /** A line opens a section exactly when it starts with `#` and some title
      pattern matches after the marker; the section is that of the first
      such pattern, so a later pattern matching the same line adds nothing. */
  lemma SectionOfSpec(pats: seq<SectionPattern>, line: string)
    ensures SectionOf(pats, line).Some? <==>
            && line != [] && line[0] == '#'
            && exists j :: 0 <= j < |pats| && pats[j].title(HeadingTitle(line).value)
    ensures SectionOf(pats, line).Some? ==>
              exists w :: && 0 <= w < |pats| && Opens(pats[w], line)
                          && (forall j :: 0 <= j < w ==> !Opens(pats[j], line))
                          && SectionOf(pats, line) == Some(pats[w].name)
  {
    FirstOpeningSpec(pats, line, 0);
    if line != [] && line[0] == '#' {
      if j :| 0 <= j < |pats| && pats[j].title(HeadingTitle(line).value) {
        assert Opens(pats[j], line);
      }
    }
  }

  /** The section each line opens, line by line. */
  function Openings(pats: seq<SectionPattern>, lines: seq<string>): (opts: seq<Option<string>>)
    ensures |opts| == |lines|
  {
    seq(|lines|, i requires 0 <= i < |lines| => SectionOf(pats, lines[i]))
  }

  /** `xs` without the elements of `ys`, in order. */
  function Without(xs: seq<string>, ys: seq<string>): (r: seq<string>)
    ensures forall y :: y in r <==> y in xs && y !in ys
  {
    if xs == [] then []
    else (if xs[0] in ys then [] else [xs[0]]) + Without(xs[1..], ys)
  }

  /** `check_sections`: the sorted names of the sections found, and the
      sorted required sections that were not found. */
  function CheckSections(pats: seq<SectionPattern>, content: string): (r: (seq<string>, seq<string>))
    ensures StrictlySorted(r.0) && StrictlySorted(r.1)
    ensures forall y :: y in r.1 <==> y in RequiredSections && y !in r.0
  {
    var found := SortedSet(Present(Openings(pats, Split(content)), 0));
    (found, SortedSet(Without(RequiredSections, found)))
  }

  /** A section is found exactly when some line opens it. */
  lemma FoundIff(pats: seq<SectionPattern>, content: string, name: string)
    ensures name in CheckSections(pats, content).0 <==>
            exists i :: 0 <= i < |Split(content)| && SectionOf(pats, Split(content)[i]) == Some(name)
  {
    var opts := Openings(pats, Split(content));
    PresentMembers(opts, name);
    assert forall i :: 0 <= i < |opts| ==> opts[i] == SectionOf(pats, Split(content)[i]);
  }
}
