/**
 The two small building blocks every tool shares: an optional value, and the
 handful of Python string operations the tools rely on (`str.split('\n')`,
 `str.strip()`, `str.lower()`, slicing, `str.count`) together with the one
 regular-expression shape whose semantics the contracts depend on: a literal
 word between `\b` word boundaries, searched case-insensitively.
 */
module Wrappers {

  datatype Option<+T> = None | Some(value: T)
}

module Text {
  import opened Wrappers
  import opened Collecting

  /* ---------------------------------------------------------------------- */
  /* Character classes                                                       */
  /* ---------------------------------------------------------------------- */

  /** Python's `str.isspace()` (and the `\s` class of `re` on `str`): exactly
      these code points. */
  predicate IsSpace(c: char)
  {
    ('\t' <= c <= '\r') || ('\U{1C}' <= c <= ' ')
    || c == '\U{85}' || c == '\U{A0}' || c == '\U{1680}'
    || ('\U{2000}' <= c <= '\U{200A}')
    || c == '\U{2028}' || c == '\U{2029}' || c == '\U{202F}' || c == '\U{205F}' || c == '\U{3000}'
  }

  /** `\d`, restricted to ASCII digits. */
  predicate IsDigit(c: char)
  {
    '0' <= c <= '9'
  }

  predicate IsUpper(c: char)
  {
    'A' <= c <= 'Z'
  }

  predicate IsLower(c: char)
  {
    'a' <= c <= 'z'
  }

  /** `\w`, restricted to ASCII letters, digits and the underscore. */
  predicate IsWordChar(c: char)
  {
    IsDigit(c) || IsUpper(c) || IsLower(c) || c == '_'
  }

  /** `str.lower()` on one character, restricted to ASCII letters. */
  function LowerChar(c: char): char
  {
    if IsUpper(c) then (c as int + 32) as char else c
  }

  function Lower(s: string): string
  {
    seq(|s|, i requires 0 <= i < |s| => LowerChar(s[i]))
  }

  predicate AllSpace(s: string)
  {
    forall i :: 0 <= i < |s| ==> IsSpace(s[i])
  }

  /** Number of occurrences of `c` in `s` (Python's `s.count(c)`). */
  function Count(s: string, c: char): nat
  {
    if s == [] then 0 else (if s[0] == c then 1 else 0) + Count(s[1..], c)
  }

  /** Python's `s[k:]` for a non-negative `k`: an index past the end gives "". */
  function Suffix(s: string, k: nat): string
  {
    if k <= |s| then s[k..] else []
  }

  /** Python's `s[:n]` for a non-negative `n`. */
  function Take(s: string, n: nat): (r: string)
    ensures |r| <= n && |r| <= |s|
    ensures r == s[..|r|]
    ensures |s| <= n ==> r == s
  {
    if |s| <= n then s else s[..n]
  }

  /* ---------------------------------------------------------------------- */
  /* str.strip()                                                             */
  /* ---------------------------------------------------------------------- */

  function LeadingSpaces(s: string): (n: nat)
    ensures n <= |s|
    ensures AllSpace(s[..n])
    ensures n == |s| || !IsSpace(s[n])
  {
    if s != [] && IsSpace(s[0]) then 1 + LeadingSpaces(s[1..]) else 0
  }

  function TrailingSpaces(s: string): (n: nat)
    ensures n <= |s|
    ensures AllSpace(s[|s| - n..])
    ensures n == |s| || !IsSpace(s[|s| - n - 1])
  {
    if s != [] && IsSpace(s[|s| - 1]) then 1 + TrailingSpaces(s[..|s| - 1]) else 0
  }

  /** Python's `s.strip()`: `s` with its leading and trailing whitespace
      removed. The result is the unique infix of `s` that is surrounded only
      by whitespace and neither starts nor ends with it. */
  function Strip(s: string): (r: string)
    ensures |r| <= |s|
    ensures r == [] || (!IsSpace(r[0]) && !IsSpace(r[|r| - 1]))
  {
    var i := LeadingSpaces(s);
    var n := TrailingSpaces(s[i..]);
    var j := |s| - n;
    assert j > i ==> s[j - 1] == s[i..][|s[i..]| - n - 1];
    s[i..j]
  }

  /** The stripped string is an infix of `s` surrounded only by whitespace. */
  lemma StripSpec(s: string)
    ensures exists i, j :: 0 <= i <= j <= |s| && Strip(s) == s[i..j] && AllSpace(s[..i]) && AllSpace(s[j..])
  {
    var i := LeadingSpaces(s);
    var n := TrailingSpaces(s[i..]);
    var j := |s| - n;
    assert s[i..][|s[i..]| - n..] == s[j..];
    assert Strip(s) == s[i..j];
  }

  /** A line is blank when stripping it leaves nothing. */
  predicate IsBlank(line: string)
  {
    Strip(line) == []
  }

  /** `line.strip().startswith('#')`. */
  predicate IsHeading(line: string)
  {
    var t := Strip(line);
    t != [] && t[0] == '#'
  }

  /** The lines the claim detectors examine and count: neither blank nor a heading. */
  predicate IsContentLine(line: string)
  {
    !IsBlank(line) && !IsHeading(line)
  }

  /** A line is blank exactly when every character of it is whitespace. */
  lemma BlankIffAllSpace(line: string)
    ensures IsBlank(line) <==> AllSpace(line)
  {
    var r := Strip(line);
    StripSpec(line);
    var i, j :| 0 <= i <= j <= |line| && r == line[i..j] && AllSpace(line[..i]) && AllSpace(line[j..]);
    if r == [] {
      assert i == j;
      forall k | 0 <= k < |line| ensures IsSpace(line[k]) {
        if k < i { assert line[k] == line[..i][k]; } else { assert line[k] == line[j..][k - j]; }
      }
    }
  }

  /* ---------------------------------------------------------------------- */
  /* str.split('\n') and its inverse                                         */
  /* ---------------------------------------------------------------------- */

  /** `'\n'.join(lines)`. */
  function Join(lines: seq<string>): string
  {
    if lines == [] then []
    else if |lines| == 1 then lines[0]
    else lines[0] + "\n" + Join(lines[1..])
  }

  function IndexOfNewline(s: string): (i: nat)
    requires '\n' in s
    ensures i < |s| && s[i] == '\n' && '\n' !in s[..i]
  {
    if s[0] == '\n' then 0
    else
      assert '\n' in s[1..] by { var k :| 0 <= k < |s| && s[k] == '\n'; assert s[1..][k - 1] == '\n'; }
      var k := IndexOfNewline(s[1..]);
      assert s[..k + 1] == [s[0]] + s[1..][..k];
      k + 1
  }

  predicate NoNewlines(lines: seq<string>)
  {
    forall k :: 0 <= k < |lines| ==> '\n' !in lines[k]
  }

  /** Python's `content.split('\n')`: the pieces between newlines, never an
      empty list, no piece containing a newline, and joining them back with
      newlines gives the content again. */
  function Split(s: string): (lines: seq<string>)
    ensures |lines| >= 1
    ensures NoNewlines(lines)
    ensures Join(lines) == s
    decreases |s|
  {
    if '\n' !in s then [s]
    else
      var i := IndexOfNewline(s);
      var rest := Split(s[i + 1..]);
      assert s == s[..i] + "\n" + s[i + 1..];
      [s[..i]] + rest
  }

  /** The other half of the round trip: splitting the join of newline-free
      lines gives the same lines back. */
  lemma {:induction false} SplitJoin(lines: seq<string>)
    requires |lines| >= 1 && NoNewlines(lines)
    ensures Split(Join(lines)) == lines
    decreases |lines|
  {
    if |lines| == 1 {
    } else {
      var s := Join(lines);
      var rest := lines[1..];
      assert s == lines[0] + "\n" + Join(rest);
      assert '\n' in s by { assert s[|lines[0]|] == '\n'; }
      var i := IndexOfNewline(s);
      assert i == |lines[0]| by {
      }
      assert s[..i] == lines[0];
      assert s[i + 1..] == Join(rest);
      SplitJoin(rest);
    }
  }

  /* ---------------------------------------------------------------------- */
  /* Line counts used by the scores                                          */
  /* ---------------------------------------------------------------------- */

  predicate IsNonBlank(line: string)
  {
    !IsBlank(line)
  }

  /** The claim detectors' line count: non-blank, non-heading lines. */
  function ContentLineCount(content: string): nat
  {
    CountWhere(Split(content), IsContentLine, 0)
  }

  /** The buzzword detector's line count: every non-blank line. */
  function NonBlankLineCount(content: string): nat
  {
    CountWhere(Split(content), IsNonBlank, 0)
  }

  /** A heading is never blank, so the non-blank lines of `lines[from..]`
      are exactly its content lines plus its headings. */
  lemma {:induction false} NonBlankIsContentPlusHeadings(lines: seq<string>, from: nat)
    requires from <= |lines|
    ensures CountWhere(lines, IsNonBlank, from) == CountWhere(lines, IsContentLine, from) + CountWhere(lines, IsHeading, from)
    decreases |lines| - from
  {
    if from < |lines| {
      NonBlankIsContentPlusHeadings(lines, from + 1);
    }
  }

  /** The two counts of one document differ by its number of headings. */
  lemma LineCountsDiffer(content: string)
    ensures NonBlankLineCount(content) == ContentLineCount(content) + CountWhere(Split(content), IsHeading, 0)
  {
    NonBlankIsContentPlusHeadings(Split(content), 0);
  }

  /* ---------------------------------------------------------------------- */
  /* `\b<word>\b`, case-insensitive                                          */
  /* ---------------------------------------------------------------------- */

  predicate WordAt(s: string, p: int)
  {
    0 <= p < |s| && IsWordChar(s[p])
  }

  /** `\b` at position `p`: a word character on exactly one side. */
  predicate Boundary(s: string, p: int)
  {
    WordAt(s, p - 1) != WordAt(s, p)
  }

  /** `w` occurs at position `i` of `s`, ignoring case, with a word boundary
      on both sides. */
  predicate WholeWordAt(s: string, w: string, i: nat)
  {
    i + |w| <= |s| && Lower(s[i..i + |w|]) == Lower(w) && Boundary(s, i) && Boundary(s, i + |w|)
  }

  /** `re.search(r'\b' + re.escape(w) + r'\b', s, re.IGNORECASE)` succeeds. */
  predicate ContainsWholeWord(s: string, w: string)
  {
    exists i: nat | i + |w| <= |s| :: WholeWordAt(s, w, i)
  }

  /** The leftmost whole-word occurrence of `w` at or after `from`, as a
      left-to-right regular-expression search finds it. */
  function FindWholeWord(s: string, w: string, from: nat): Option<nat>
    decreases |s| - from
  {
    if from + |w| > |s| then None
    else if WholeWordAt(s, w, from) then Some(from)
    else FindWholeWord(s, w, from + 1)
  }

  /** The search returns an occurrence with none before it, and fails only
      when there is no occurrence at all. */
  lemma {:induction false} FindWholeWordSpec(s: string, w: string, from: nat)
    ensures var r := FindWholeWord(s, w, from);
            && (r.Some? ==> from <= r.value && WholeWordAt(s, w, r.value))
            && (r.Some? ==> forall i: nat :: from <= i < r.value ==> !WholeWordAt(s, w, i))
            && (r.None? ==> forall i: nat :: from <= i ==> !WholeWordAt(s, w, i))
    decreases |s| - from
  {
    if from + |w| <= |s| && !WholeWordAt(s, w, from) {
      FindWholeWordSpec(s, w, from + 1);
    }
  }

  /** The search succeeds exactly when the word occurs somewhere. */
  lemma FindWholeWordFinds(s: string, w: string)
    ensures FindWholeWord(s, w, 0).Some? <==> ContainsWholeWord(s, w)
  {
    FindWholeWordSpec(s, w, 0);
    if FindWholeWord(s, w, 0).Some? {
      var i := FindWholeWord(s, w, 0).value;
      assert i + |w| <= |s| && WholeWordAt(s, w, i);
    }
  }

  lemma LowerCharFacts(c: char)
    ensures LowerChar(LowerChar(c)) == LowerChar(c)
    ensures IsWordChar(LowerChar(c)) == IsWordChar(c)
    ensures LowerChar(c) == '\n' <==> c == '\n'
  {
  }

  /** Lower-casing the searched text does not change a case-insensitive
      whole-word search. */
  lemma WholeWordIgnoresLower(s: string, w: string)
    ensures ContainsWholeWord(Lower(s), w) <==> ContainsWholeWord(s, w)
  {
    var ls := Lower(s);
    forall i: nat | i + |w| <= |s|
      ensures WholeWordAt(ls, w, i) <==> WholeWordAt(s, w, i)
    {
      forall p | 0 <= p < |s| ensures IsWordChar(ls[p]) == IsWordChar(s[p]) {
        LowerCharFacts(s[p]);
      }
      assert WordAt(ls, i - 1) == WordAt(s, i - 1);
      assert WordAt(ls, i) == WordAt(s, i);
      assert WordAt(ls, i + |w| - 1) == WordAt(s, i + |w| - 1);
      assert WordAt(ls, i + |w|) == WordAt(s, i + |w|);
      forall p | i <= p < i + |w| ensures LowerChar(ls[p]) == LowerChar(s[p]) {
        LowerCharFacts(s[p]);
      }
      assert Lower(ls[i..i + |w|]) == Lower(s[i..i + |w|]);
    }
    if ContainsWholeWord(ls, w) {
      var i: nat :| i + |w| <= |ls| && WholeWordAt(ls, w, i);
      assert WholeWordAt(s, w, i);
    }
    if ContainsWholeWord(s, w) {
      var i: nat :| i + |w| <= |s| && WholeWordAt(s, w, i);
      assert WholeWordAt(ls, w, i);
    }
  }

  /** An occurrence inside the first part of `a + "\n" + b`, and one inside
      `a` alone, are the same thing (the newline is not a word character, and
      neither is the end of `a`). */
  lemma WholeWordInHead(a: string, b: string, w: string, i: nat)
    requires i + |w| <= |a|
    ensures WholeWordAt(a + "\n" + b, w, i) <==> WholeWordAt(a, w, i)
  {
    var s := a + "\n" + b;
    assert s[i..i + |w|] == a[i..i + |w|];
    assert WordAt(s, i - 1) == WordAt(a, i - 1);
    assert WordAt(s, i) == WordAt(a, i);
    assert WordAt(s, i + |w| - 1) == WordAt(a, i + |w| - 1);
    assert WordAt(s, i + |w|) == WordAt(a, i + |w|) by {
      if i + |w| == |a| { assert s[|a|] == '\n'; }
    }
  }

  /** Likewise for an occurrence inside the last part. */
  lemma WholeWordInTail(a: string, b: string, w: string, i: nat)
    requires i + |w| <= |b|
    ensures WholeWordAt(a + "\n" + b, w, |a| + 1 + i) <==> WholeWordAt(b, w, i)
  {
    var s := a + "\n" + b;
    var o := |a| + 1;
    assert s[o + i..o + i + |w|] == b[i..i + |w|];
    assert WordAt(s, o + i - 1) == WordAt(b, i - 1) by {
      if i == 0 { assert s[|a|] == '\n'; }
    }
    assert WordAt(s, o + i) == WordAt(b, i);
    assert WordAt(s, o + i + |w| - 1) == WordAt(b, i + |w| - 1);
    assert WordAt(s, o + i + |w|) == WordAt(b, i + |w|);
  }

  /** A match window cannot straddle the newline between `a` and `b` when the
      word has no newline of its own. */
  lemma NoWholeWordAcrossNewline(a: string, b: string, w: string, i: nat)
    requires '\n' !in w
    requires i <= |a| < i + |w|
    ensures !WholeWordAt(a + "\n" + b, w, i)
  {
    var s := a + "\n" + b;
    if i + |w| <= |s| && Lower(s[i..i + |w|]) == Lower(w) {
      var k := |a| - i;
      assert s[i..i + |w|][k] == '\n';
      assert Lower(w)[k] == '\n';
      LowerCharFacts(w[k]);
    }
  }

  /** Two lines joined by a newline contain the word exactly when one of
      them does (for a word without newlines). */
  lemma WholeWordInPair(a: string, b: string, w: string)
    requires '\n' !in w
    ensures ContainsWholeWord(a + "\n" + b, w) <==> ContainsWholeWord(a, w) || ContainsWholeWord(b, w)
  {
    var s := a + "\n" + b;
    if ContainsWholeWord(s, w) {
      var i: nat :| i + |w| <= |s| && WholeWordAt(s, w, i);
      if i + |w| <= |a| {
        WholeWordInHead(a, b, w, i);
      } else if i <= |a| {
        NoWholeWordAcrossNewline(a, b, w, i);
      } else {
        var j: nat := i - |a| - 1;
        WholeWordInTail(a, b, w, j);
      }
    }
    if ContainsWholeWord(a, w) {
      var i: nat :| i + |w| <= |a| && WholeWordAt(a, w, i);
      WholeWordInHead(a, b, w, i);
    }
    if ContainsWholeWord(b, w) {
      var j: nat :| j + |w| <= |b| && WholeWordAt(b, w, j);
      WholeWordInTail(a, b, w, j);
      assert WholeWordAt(s, w, |a| + 1 + j);
    }
  }

  /** Searching the whole text finds the word exactly when some line of it
      contains the word (for a word without newlines). */
  lemma {:induction false} WholeWordInSomeLine(lines: seq<string>, w: string)
    requires |lines| >= 1
    requires '\n' !in w
    ensures ContainsWholeWord(Join(lines), w) <==>
            exists k :: 0 <= k < |lines| && ContainsWholeWord(lines[k], w)
    decreases |lines|
  {
    if |lines| == 1 {
      assert Join(lines) == lines[0];
    } else {
      var rest := lines[1..];
      assert Join(lines) == lines[0] + "\n" + Join(rest);
      WholeWordInSomeLine(rest, w);
      WholeWordInPair(lines[0], Join(rest), w);
      assert forall k :: 0 <= k < |rest| ==> rest[k] == lines[k + 1];
      if exists k :: 0 <= k < |lines| && ContainsWholeWord(lines[k], w) {
        var k :| 0 <= k < |lines| && ContainsWholeWord(lines[k], w);
        if k > 0 {
          assert ContainsWholeWord(rest[k - 1], w);
        }
      }
    }
  }
}
