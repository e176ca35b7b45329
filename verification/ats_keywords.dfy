/**
 Keyword extraction from a job description and keyword matching against a
 resume, as the ATS checker does them. Extraction files every
 lower-cased hit of each category's pattern under that category (a later
 category overriding an earlier one), then adds capitalised acronyms that
 are not keywords yet, then one "N+ years" keyword for the largest number
 of years asked for; the keywords come out sorted, each once. Matching
 searches the lower-cased resume for each keyword as a whole word and, when
 found, records the first line containing it, stripped and cut to 100
 characters.

 The extraction patterns are not modelled: their `findall` results are the
 input, one list of hits per category in table order, the acronym hits,
 and the numbers of years found.
 */
module AtsKeywords {
  import opened Wrappers
  import opened Text
  import opened Ordering

  /** `KeywordMatch`. */
  datatype KeywordMatch = KeywordMatch(keyword: string, foundInResume: bool, context: Option<string>, category: string)

  /** The hits of one category's pattern, in order. */
  datatype CategoryHits = CategoryHits(category: string, hits: seq<string>)

  /** The `findall` results extraction works from. */
  datatype JobHits = JobHits(categories: seq<CategoryHits>, acronyms: seq<string>, years: seq<nat>)

  /* ---------------------------------------------------------------------- */
  /* Decimal numbers                                                         */
  /* ---------------------------------------------------------------------- */

  function DigitChar(d: nat): char
    requires d < 10
  {
    ('0' as int + d) as char
  }

  /** `str(n)` for a natural number. */
  function NatToString(n: nat): (s: string)
    ensures |s| >= 1
    ensures forall k :: 0 <= k < |s| ==> IsDigit(s[k])
    ensures n > 0 ==> s[0] != '0'
  {
    if n < 10 then [DigitChar(n)] else NatToString(n / 10) + [DigitChar(n % 10)]
  }

  /** `int(s)` for a string of ASCII digits. */
  function ParseNat(s: string): nat
    requires forall k :: 0 <= k < |s| ==> IsDigit(s[k])
  {
    if s == [] then 0
    else
      assert IsDigit(s[|s| - 1]);
      ParseNat(s[..|s| - 1]) * 10 + (s[|s| - 1] as int - '0' as int)
  }

  /** Printing a number and reading it back gives the number. */
  lemma {:induction false} ParseNatToString(n: nat)
    ensures ParseNat(NatToString(n)) == n
  {
    var s := NatToString(n);
    if n >= 10 {
      ParseNatToString(n / 10);
      assert s[..|s| - 1] == NatToString(n / 10);
    }
  }

  /** Largest element of a non-empty list. */
  function MaxOf(xs: seq<nat>): (m: nat)
    requires xs != []
    ensures exists i :: 0 <= i < |xs| && xs[i] == m
    ensures forall i :: 0 <= i < |xs| ==> xs[i] <= m
  {
    if |xs| == 1 then xs[0]
    else
      var m := MaxOf(xs[1..]);
      assert forall i :: 1 <= i < |xs| ==> xs[i] == xs[1..][i - 1];
      if xs[0] > m then xs[0] else m
  }

  /** The keyword standing for `n` years of experience. */
  function YearsKey(n: nat): string
  {
    NatToString(n) + "+ years"
  }

  /* ---------------------------------------------------------------------- */
  /* The keyword dictionary                                                  */
  /* ---------------------------------------------------------------------- */

  /** The assignments `keywords[match.lower()] = category` in the order the
      loop performs them. */
  function Assignments(cats: seq<CategoryHits>): (ps: seq<(string, string)>)
  {
    if cats == [] then []
    else
      var c := cats[|cats| - 1];
      Assignments(cats[..|cats| - 1]) + seq(|c.hits|, j requires 0 <= j < |c.hits| => (Lower(c.hits[j]), c.category))
  }

  /** Performs the assignments `ps` in order on `d`. */
  function Assign(d: map<string, string>, ps: seq<(string, string)>): map<string, string>
  {
    if ps == [] then d
    else Assign(d, ps[..|ps| - 1])[ps[|ps| - 1].0 := ps[|ps| - 1].1]
  }

  /** The keys of `ps`, in order. */
  function KeysOf(ps: seq<(string, string)>): (ks: seq<string>)
    ensures |ks| == |ps|
    ensures forall i :: 0 <= i < |ps| ==> ks[i] == ps[i].0
  {
    seq(|ps|, i requires 0 <= i < |ps| => ps[i].0)
  }

  /** Assigning adds exactly the assigned keys and leaves the others'
      values alone. */
  lemma {:induction false} AssignSpec(d: map<string, string>, ps: seq<(string, string)>, k: string)
    ensures k in Assign(d, ps) <==> k in d || k in KeysOf(ps)
    ensures k !in KeysOf(ps) && k in d ==> Assign(d, ps)[k] == d[k]
  {
    if ps != [] {
      var init := ps[..|ps| - 1];
      AssignSpec(d, init, k);
      assert KeysOf(ps) == KeysOf(init) + [ps[|ps| - 1].0];
    }
  }

  /** The value of a key is the one of its last assignment. */
  lemma {:induction false} AssignLastWins(d: map<string, string>, ps: seq<(string, string)>, i: nat)
    requires i < |ps|
    requires forall j :: i < j < |ps| ==> ps[j].0 != ps[i].0
    ensures ps[i].0 in Assign(d, ps) && Assign(d, ps)[ps[i].0] == ps[i].1
  {
    if i < |ps| - 1 {
      var init := ps[..|ps| - 1];
      assert init[i] == ps[i];
      assert forall j :: i < j < |init| ==> init[j] == ps[j];
      AssignLastWins(d, init, i);
      assert ps[|ps| - 1].0 != ps[i].0;
    }
  }

  /** Adds the acronyms, in order, that are not keys yet, under "acronym". */
  function AddAcronyms(d: map<string, string>, acronyms: seq<string>): map<string, string>
  {
    if acronyms == [] then d
    else
      var e := AddAcronyms(d, acronyms[..|acronyms| - 1]);
      var k := Lower(acronyms[|acronyms| - 1]);
      if k in e then e else e[k := "acronym"]
  }

  /** The lower-cased acronyms. */
  function LowerAll(xs: seq<string>): (r: seq<string>)
    ensures |r| == |xs|
    ensures forall i :: 0 <= i < |xs| ==> r[i] == Lower(xs[i])
  {
    seq(|xs|, i requires 0 <= i < |xs| => Lower(xs[i]))
  }

  /** An acronym never overrides a keyword already present: existing keys
      keep their category, and a new key is filed under "acronym". */
  lemma {:induction false} AddAcronymsSpec(d: map<string, string>, acronyms: seq<string>, k: string)
    ensures k in AddAcronyms(d, acronyms) <==> k in d || k in LowerAll(acronyms)
    ensures k in d ==> AddAcronyms(d, acronyms)[k] == d[k]
    ensures k !in d && k in LowerAll(acronyms) ==> AddAcronyms(d, acronyms)[k] == "acronym"
  {
    if acronyms != [] {
      var init := acronyms[..|acronyms| - 1];
      AddAcronymsSpec(d, init, k);
      assert LowerAll(acronyms) == LowerAll(init) + [Lower(acronyms[|acronyms| - 1])];
    }
  }

  /** Adds the "N+ years" keyword for the largest number of years, if any. */
  function AddYears(d: map<string, string>, years: seq<nat>): map<string, string>
  {
    if years == [] then d else d[YearsKey(MaxOf(years)) := "experience_level"]
  }

  /** The keys the dictionary ends up with, possibly repeated. */
  function AllKeys(job: JobHits): seq<string>
  {
    KeysOf(Assignments(job.categories)) + LowerAll(job.acronyms)
    + (if job.years == [] then [] else [YearsKey(MaxOf(job.years))])
  }

  /** The final dictionary `keywords`. */
  function KeywordMap(job: JobHits): map<string, string>
  {
    AddYears(AddAcronyms(Assign(map[], Assignments(job.categories)), job.acronyms), job.years)
  }

  lemma KeywordMapKeys(job: JobHits)
    ensures forall k :: k in KeywordMap(job) <==> k in AllKeys(job)
  {
    var ps := Assignments(job.categories);
    forall k ensures k in KeywordMap(job) <==> k in AllKeys(job) {
      AssignSpec(map[], ps, k);
      AddAcronymsSpec(Assign(map[], ps), job.acronyms, k);
    }
  }

  /** `extract_keywords_from_jd`: one entry per keyword, in sorted order,
      not yet matched. */
  function ExtractKeywords(job: JobHits): (r: seq<KeywordMatch>)
    ensures forall a, b :: 0 <= a < b < |r| ==> Less(r[a].keyword, r[b].keyword)
    ensures forall i :: 0 <= i < |r| ==> !r[i].foundInResume && r[i].context.None?
  {
    var ks := SortedSet(AllKeys(job));
    var m := KeywordMap(job);
    KeywordMapKeys(job);
    assert forall i :: 0 <= i < |ks| ==> ks[i] in m;
    seq(|ks|, i requires 0 <= i < |ks| => KeywordMatch(ks[i], false, None, m[ks[i]]))
  }

  /** The extracted keywords are exactly the keys of the dictionary, each
      with its category there. */
  lemma ExtractKeywordsSpec(job: JobHits)
    ensures forall k :: (exists i :: 0 <= i < |ExtractKeywords(job)| && ExtractKeywords(job)[i].keyword == k) <==> k in KeywordMap(job)
    ensures forall i :: 0 <= i < |ExtractKeywords(job)| ==>
              ExtractKeywords(job)[i].keyword in KeywordMap(job)
              && ExtractKeywords(job)[i].category == KeywordMap(job)[ExtractKeywords(job)[i].keyword]
  {
    var r := ExtractKeywords(job);
    var ks := SortedSet(AllKeys(job));
    KeywordMapKeys(job);
    assert forall i :: 0 <= i < |r| ==> r[i].keyword == ks[i];
    forall k | k in KeywordMap(job) ensures exists i :: 0 <= i < |r| && r[i].keyword == k {
      assert k in ks;
      var i :| 0 <= i < |ks| && ks[i] == k;
      assert r[i].keyword == k;
    }
  }

  /** A keyword found by the category patterns keeps the category of its
      last hit, whatever the acronyms are; only the years keyword can take
      its place. */
  lemma CategoryOfLastHit(job: JobHits, i: nat)
    requires i < |Assignments(job.categories)|
    requires forall j :: i < j < |Assignments(job.categories)| ==> Assignments(job.categories)[j].0 != Assignments(job.categories)[i].0
    requires job.years == [] || Assignments(job.categories)[i].0 != YearsKey(MaxOf(job.years))
    ensures Assignments(job.categories)[i].0 in KeywordMap(job)
    ensures KeywordMap(job)[Assignments(job.categories)[i].0] == Assignments(job.categories)[i].1
  {
    var ps := Assignments(job.categories);
    AssignLastWins(map[], ps, i);
    AddAcronymsSpec(Assign(map[], ps), job.acronyms, ps[i].0);
  }

  /** An acronym that is no category keyword is filed under "acronym". */
  lemma AcronymCategory(job: JobHits, a: nat)
    requires a < |job.acronyms|
    requires Lower(job.acronyms[a]) !in KeysOf(Assignments(job.categories))
    requires job.years == [] || Lower(job.acronyms[a]) != YearsKey(MaxOf(job.years))
    ensures Lower(job.acronyms[a]) in KeywordMap(job)
    ensures KeywordMap(job)[Lower(job.acronyms[a])] == "acronym"
  {
    var k := Lower(job.acronyms[a]);
    var ps := Assignments(job.categories);
    AssignSpec(map[], ps, k);
    AddAcronymsSpec(Assign(map[], ps), job.acronyms, k);
    assert LowerAll(job.acronyms)[a] == k;
  }

  /** When years are asked for, the keyword for the largest number is
      present, filed under "experience_level". */
  lemma YearsKeyword(job: JobHits)
    requires job.years != []
    ensures YearsKey(MaxOf(job.years)) in KeywordMap(job)
    ensures KeywordMap(job)[YearsKey(MaxOf(job.years))] == "experience_level"
  {
  }

  /* ---------------------------------------------------------------------- */
  /* Matching                                                                */
  /* ---------------------------------------------------------------------- */

  /** The first line, from `i` on, that contains `w` as a whole word. */
  function FirstLineWith(lines: seq<string>, w: string, i: nat): (r: Option<nat>)
    requires i <= |lines|
    ensures r.Some? ==> i <= r.value < |lines|
    decreases |lines| - i
  {
    if i == |lines| then None
    else if FindWholeWord(lines[i], w, 0).Some? then Some(i)
    else FirstLineWith(lines, w, i + 1)
  }

  lemma {:induction false} FirstLineWithSpec(lines: seq<string>, w: string, i: nat)
    requires i <= |lines|
    ensures match FirstLineWith(lines, w, i)
            case Some(k) => ContainsWholeWord(lines[k], w) && forall j :: i <= j < k ==> !ContainsWholeWord(lines[j], w)
            case None => forall j :: i <= j < |lines| ==> !ContainsWholeWord(lines[j], w)
    decreases |lines| - i
  {
    if i < |lines| {
      FindWholeWordFinds(lines[i], w);
      FirstLineWithSpec(lines, w, i + 1);
    }
  }

  /** One iteration of `match_keywords`. */
  function MatchOne(resume: string, km: KeywordMatch): (r: KeywordMatch)
    ensures r.keyword == km.keyword && r.category == km.category
    ensures !r.foundInResume ==> r.context == km.context
  {
    var w := Lower(km.keyword);
    var found := FindWholeWord(Lower(resume), w, 0).Some?;
    var context :=
      if !found then km.context
      else match FirstLineWith(Split(resume), w, 0)
           case Some(k) => Some(Take(Strip(Split(resume)[k]), 100))
           case None => km.context;
    km.(foundInResume := found, context := context)
  }

  /** `match_keywords`: every keyword gets its found flag, in place. */
  function MatchKeywords(resume: string, kms: seq<KeywordMatch>): (r: seq<KeywordMatch>)
    ensures |r| == |kms|
    ensures forall i :: 0 <= i < |kms| ==> r[i] == MatchOne(resume, kms[i])
  {
    seq(|kms|, i requires 0 <= i < |kms| => MatchOne(resume, kms[i]))
  }

  /** Matching a lower-cased word is matching the word, ignoring case. */
  lemma WholeWordLowerWord(s: string, w: string)
    ensures ContainsWholeWord(s, Lower(w)) <==> ContainsWholeWord(s, w)
  {
    assert Lower(Lower(w)) == Lower(w) by {
      forall k | 0 <= k < |w| ensures Lower(Lower(w))[k] == Lower(w)[k] {
        LowerCharFacts(w[k]);
      }
    }
    forall i: nat | i + |w| <= |s| ensures WholeWordAt(s, Lower(w), i) <==> WholeWordAt(s, w, i) {
    }
  }

  /** A keyword is found exactly when it occurs in the resume as a whole
      word, ignoring case. */
  lemma FoundIff(resume: string, km: KeywordMatch)
    ensures MatchOne(resume, km).foundInResume <==> ContainsWholeWord(resume, km.keyword)
  {
    var w := Lower(km.keyword);
    FindWholeWordFinds(Lower(resume), w);
    WholeWordIgnoresLower(resume, w);
    WholeWordLowerWord(resume, km.keyword);
  }

  /** Lower-casing keeps line breaks out. */
  lemma LowerNoNewline(w: string)
    requires '\n' !in w
    ensures '\n' !in Lower(w)
  {
    forall k | 0 <= k < |w| ensures Lower(w)[k] != '\n' {
      LowerCharFacts(w[k]);
    }
  }

  /** The line search for the lower-cased keyword finds the first line
      holding the keyword as a whole word, ignoring case. */
  lemma FirstLineWithLower(lines: seq<string>, kw: string)
    ensures match FirstLineWith(lines, Lower(kw), 0)
            case Some(k) => ContainsWholeWord(lines[k], kw) && forall j :: 0 <= j < k ==> !ContainsWholeWord(lines[j], kw)
            case None => forall j :: 0 <= j < |lines| ==> !ContainsWholeWord(lines[j], kw)
  {
    FirstLineWithSpec(lines, Lower(kw), 0);
    forall j | 0 <= j < |lines| ensures ContainsWholeWord(lines[j], Lower(kw)) <==> ContainsWholeWord(lines[j], kw) {
      WholeWordLowerWord(lines[j], kw);
    }
  }

  /** A keyword without line breaks that is found lies on some line. */
  lemma FoundOnSomeLine(resume: string, kw: string)
    requires '\n' !in kw
    requires ContainsWholeWord(resume, kw)
    ensures FirstLineWith(Split(resume), Lower(kw), 0).Some?
  {
    var lines := Split(resume);
    WholeWordInSomeLine(lines, kw);
    FirstLineWithLower(lines, kw);
  }

  /** For a keyword without line breaks that is found, the context is the
      first line containing it (in the sense of `FirstLineWithLower`),
      stripped and cut to at most 100 characters. */
  lemma ContextIsFirstLine(resume: string, km: KeywordMatch)
    requires '\n' !in km.keyword
    requires MatchOne(resume, km).foundInResume
    ensures FirstLineWith(Split(resume), Lower(km.keyword), 0).Some?
    ensures MatchOne(resume, km).context
            == Some(Take(Strip(Split(resume)[FirstLineWith(Split(resume), Lower(km.keyword), 0).value]), 100))
  {
    FoundIff(resume, km);
    FoundOnSomeLine(resume, km.keyword);
  }

  /** An extracted keyword gets a context only when it is found. */
  lemma ContextOnlyWhenFound(resume: string, km: KeywordMatch)
    requires km.context.None?
    ensures MatchOne(resume, km).context.Some? ==> MatchOne(resume, km).foundInResume
  {
  }
}
