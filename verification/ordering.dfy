/**
 Python's ordering of `str` values (code point by code point, a proper
 prefix first) and `sorted()` of a collection of distinct strings, which the
 ATS tool uses for section names and job-description keywords.
 */
module Ordering {

  /** `a < b` on Python strings. */
  predicate Less(a: string, b: string)
    decreases |a|
  {
    if a == [] then b != []
    else if b == [] then false
    else if a[0] != b[0] then a[0] < b[0]
    else Less(a[1..], b[1..])
  }

  lemma LessIrreflexive(a: string)
    ensures !Less(a, a)
  {
  }

  lemma {:induction false} LessTransitive(a: string, b: string, c: string)
    requires Less(a, b) && Less(b, c)
    ensures Less(a, c)
    decreases |a|
  {
    if a != [] && b != [] && c != [] && a[0] == b[0] && b[0] == c[0] {
      LessTransitive(a[1..], b[1..], c[1..]);
    }
  }

  lemma {:induction false} LessTotal(a: string, b: string)
    requires a != b
    ensures Less(a, b) != Less(b, a)
    decreases |a|
  {
    if a != [] && b != [] && a[0] == b[0] {
      assert a == [a[0]] + a[1..] && b == [b[0]] + b[1..];
      LessTotal(a[1..], b[1..]);
    }
  }

  predicate StrictlySorted(s: seq<string>)
  {
    forall i, j :: 0 <= i < j < |s| ==> Less(s[i], s[j])
  }

  /** Adds `x` to a strictly sorted list unless it is already there. */
  function InsertUnique(x: string, s: seq<string>): (r: seq<string>)
    requires StrictlySorted(s)
    ensures StrictlySorted(r)
    ensures forall y :: y in r <==> (y in s || y == x)
  {
    if s == [] then [x]
    else if x == s[0] then s
    else if Less(x, s[0]) then
      assert forall j :: 0 < j < |s| ==> Less(x, s[j]) by {
        forall j | 0 < j < |s| ensures Less(x, s[j]) { LessTransitive(x, s[0], s[j]); }
      }
      [x] + s
    else
      LessTotal(x, s[0]);
      var t := InsertUnique(x, s[1..]);
      assert forall y :: y in s <==> (y == s[0] || y in s[1..]);
      assert forall k :: 0 <= k < |t| ==> Less(s[0], t[k]) by {
        forall k | 0 <= k < |t| ensures Less(s[0], t[k]) {
          assert t[k] in t;
          if t[k] != x {
            var m :| 0 <= m < |s[1..]| && s[1..][m] == t[k];
            assert s[m + 1] == t[k];
          }
        }
      }
      var r := [s[0]] + t;
      assert forall a, b :: 0 < a < b < |r| ==> r[a] == t[a - 1] && r[b] == t[b - 1];
      r
  }

  /** Python's `sorted(set(xs))`: the distinct elements of `xs` in ascending
      order. */
  function SortedSet(xs: seq<string>): (r: seq<string>)
    ensures StrictlySorted(r)
    ensures forall y :: y in r <==> y in xs
  {
    if xs == [] then []
    else
      var r := InsertUnique(xs[|xs| - 1], SortedSet(xs[..|xs| - 1]));
      assert forall y :: y in xs <==> (y in xs[..|xs| - 1] || y == xs[|xs| - 1]) by {
        assert xs == xs[..|xs| - 1] + [xs[|xs| - 1]];
      }
      r
  }

  /** A strictly sorted list is determined by its elements: there is exactly
      one way to list a set of strings in ascending order. */
  lemma SortedUnique(a: seq<string>, b: seq<string>)
    requires StrictlySorted(a) && StrictlySorted(b)
    requires forall y :: y in a <==> y in b
    ensures a == b
  {
    SortedSamePrefix(a, b, |a|);
    assert |a| == |b| by {
      if |b| > |a| {
        SortedSamePrefix(b, a, |b|);
      }
    }
    assert a == a[..|a|] && b == b[..|b|];
  }

  lemma {:induction false} SortedSamePrefix(a: seq<string>, b: seq<string>, n: nat)
    requires StrictlySorted(a) && StrictlySorted(b)
    requires forall y :: y in a <==> y in b
    requires n <= |a|
    ensures n <= |b| && a[..n] == b[..n]
  {
    if n > 0 {
      SortedSamePrefix(a, b, n - 1);
      var i := n - 1;
      assert forall j :: 0 <= j < i ==> a[j] == b[j] by {
        forall j | 0 <= j < i ensures a[j] == b[j] {
          assert a[..n - 1][j] == b[..n - 1][j];
        }
      }
      var y := a[i];
      LessIrreflexive(y);
      assert y in b;
      var j :| 0 <= j < |b| && b[j] == y;
      assert i <= j;
      var z := b[i];
      LessIrreflexive(z);
      assert z in a;
      var j' :| 0 <= j' < |a| && a[j'] == z;
      assert i <= j';
      assert i < j ==> Less(z, y);
      assert i < j' ==> Less(y, z);
      if y != z {
        LessTotal(y, z);
      }
      assert a[..n] == a[..n - 1] + [y];
      assert b[..n] == b[..n - 1] + [z];
    }
  }
}
