/**
 Keeping the results that exist: `[x for x in xs if x is not None]`, the
 step every detector uses to turn per-line (or per-rule) results into its
 list of findings.
 */
module Collecting {
  import opened Wrappers

  /** The present values of `opts[from..]`, in order. */
  function Present<T>(opts: seq<Option<T>>, from: nat): (r: seq<T>)
    requires from <= |opts|
    ensures |r| <= |opts| - from
    decreases |opts| - from
  {
    if from == |opts| then []
    else (if opts[from].Some? then [opts[from].value] else []) + Present(opts, from + 1)
  }

  /** `idx` lists, in increasing order, exactly the positions at or after
      `from` that hold a value. */
  ghost predicate Positions<T>(opts: seq<Option<T>>, from: nat, idx: seq<nat>)
  {
    && (forall k :: 0 <= k < |idx| ==> from <= idx[k] < |opts|)
    && (forall a, b :: 0 <= a < b < |idx| ==> idx[a] < idx[b])
    && (forall j: nat :: j in idx <==> from <= j < |opts| && opts[j].Some?)
  }

  lemma PositionsCons<T>(opts: seq<Option<T>>, from: nat, rest: seq<nat>)
    requires from < |opts| && opts[from].Some? && Positions(opts, from + 1, rest)
    ensures Positions(opts, from, [from] + rest)
  {
    var idx := [from] + rest;
    assert forall k :: 0 < k < |idx| ==> idx[k] == rest[k - 1];
    assert forall j: nat :: j in idx <==> j == from || j in rest;
  }

  /** Entry `k` of the result is the value at the `k`-th position holding
      one: nothing is dropped, reordered or invented. */
  lemma {:induction false} PresentFrom<T>(opts: seq<Option<T>>, from: nat) returns (idx: seq<nat>)
    requires from <= |opts|
    ensures Positions(opts, from, idx)
    ensures |Present(opts, from)| == |idx|
    ensures forall k :: 0 <= k < |idx| ==> opts[idx[k]] == Some(Present(opts, from)[k])
    decreases |opts| - from
  {
    if from == |opts| {
      idx := [];
    } else {
      var rest := PresentFrom(opts, from + 1);
      var tail := Present(opts, from + 1);
      if opts[from].Some? {
        PositionsCons(opts, from, rest);
        idx := [from] + rest;
        assert Present(opts, from) == [opts[from].value] + tail;
      } else {
        idx := rest;
        assert Present(opts, from) == tail;
      }
    }
  }

  /** `Present` characterised by the positions of the values it keeps. */
  lemma PresentSpec<T>(opts: seq<Option<T>>)
    ensures exists idx :: && Positions(opts, 0, idx)
                          && |Present(opts, 0)| == |idx|
                          && forall k :: 0 <= k < |idx| ==> opts[idx[k]] == Some(Present(opts, 0)[k])
  {
    var idx := PresentFrom(opts, 0);
  }

  /** A value is kept exactly when some position holds it. */
  lemma PresentMembers<T>(opts: seq<Option<T>>, x: T)
    ensures x in Present(opts, 0) <==> exists j :: 0 <= j < |opts| && opts[j] == Some(x)
  {
    var r := Present(opts, 0);
    var idx := PresentFrom(opts, 0);
    if x in r {
      var k :| 0 <= k < |r| && r[k] == x;
      assert opts[idx[k]] == Some(x);
    }
    if exists j :: 0 <= j < |opts| && opts[j] == Some(x) {
      var j :| 0 <= j < |opts| && opts[j] == Some(x);
      assert j in idx;
      var k :| 0 <= k < |idx| && idx[k] == j;
      assert r[k] == x;
    }
  }

  /** Number of positions of `opts[from..]` that satisfy `ok`. */
  function CountWhere<T>(xs: seq<T>, ok: T -> bool, from: nat): nat
    requires from <= |xs|
    decreases |xs| - from
  {
    if from == |xs| then 0 else (if ok(xs[from]) then 1 else 0) + CountWhere(xs, ok, from + 1)
  }

  /** When values appear only where `ok` holds, there are at most as many
      values as such positions. */
  lemma {:induction false} PresentAtMost<T, U>(opts: seq<Option<T>>, xs: seq<U>, ok: U -> bool, from: nat)
    requires from <= |opts| == |xs|
    requires forall i :: from <= i < |opts| && opts[i].Some? ==> ok(xs[i])
    ensures |Present(opts, from)| <= CountWhere(xs, ok, from)
    decreases |opts| - from
  {
    if from < |opts| {
      PresentAtMost(opts, xs, ok, from + 1);
    }
  }

  /** Every value in `opts` carries its own position plus one as its
      number (a line number, for per-line results). */
  ghost predicate NumberedByPosition<T>(opts: seq<Option<T>>, num: T -> nat)
  {
    forall j :: 0 <= j < |opts| && opts[j].Some? ==> num(opts[j].value) == j + 1
  }

  /** Some entry of `r` carries number `i + 1`. */
  predicate HasNumber<T>(r: seq<T>, num: T -> nat, i: nat)
  {
    exists k :: 0 <= k < |r| && num(r[k]) == i + 1
  }

  /** Values numbered by position come out in strictly increasing order. */
  lemma NumberedOrdered<T>(opts: seq<Option<T>>, num: T -> nat)
    requires NumberedByPosition(opts, num)
    ensures forall a, b :: 0 <= a < b < |Present(opts, 0)| ==> num(Present(opts, 0)[a]) < num(Present(opts, 0)[b])
  {
    var r := Present(opts, 0);
    var idx := PresentFrom(opts, 0);
    assert forall k :: 0 <= k < |idx| ==> num(r[k]) == idx[k] + 1;
  }

  /** Each collected value is the one at the position its number names. */
  lemma NumberedFromItsPosition<T>(opts: seq<Option<T>>, num: T -> nat)
    requires NumberedByPosition(opts, num)
    ensures forall k :: 0 <= k < |Present(opts, 0)| ==>
              && 1 <= num(Present(opts, 0)[k]) <= |opts|
              && opts[num(Present(opts, 0)[k]) - 1] == Some(Present(opts, 0)[k])
  {
    var r := Present(opts, 0);
    var idx := PresentFrom(opts, 0);
    assert forall k :: 0 <= k < |idx| ==> num(r[k]) == idx[k] + 1;
  }

  /** A value numbered `i + 1` is collected exactly when position `i` holds one. */
  lemma NumberedHit<T>(opts: seq<Option<T>>, num: T -> nat, i: nat)
    requires NumberedByPosition(opts, num) && i < |opts|
    ensures HasNumber(Present(opts, 0), num, i) <==> opts[i].Some?
  {
    var r := Present(opts, 0);
    var idx := PresentFrom(opts, 0);
    assert forall k :: 0 <= k < |idx| ==> num(r[k]) == idx[k] + 1;
    if opts[i].Some? {
      assert i in idx;
      var k :| 0 <= k < |idx| && idx[k] == i;
      assert num(r[k]) == i + 1;
    }
  }

  /** `f` applied to every line and its line number, counting from 1. */
  function ByLine<T>(lines: seq<string>, f: (string, nat) -> Option<T>): (opts: seq<Option<T>>)
    ensures |opts| == |lines|
    ensures forall i :: 0 <= i < |lines| ==> opts[i] == f(lines[i], i + 1)
  {
    seq(|lines|, i requires 0 <= i < |lines| => f(lines[i], i + 1))
  }

  /** Every value `f` produces carries the line number `f` was given. */
  ghost predicate Stamps<T>(f: (string, nat) -> Option<T>, num: T -> nat)
  {
    forall s, n :: f(s, n).Some? ==> num(f(s, n).value) == n
  }

  lemma StampedByPosition<T>(lines: seq<string>, f: (string, nat) -> Option<T>, num: T -> nat)
    requires Stamps(f, num)
    ensures NumberedByPosition(ByLine(lines, f), num)
  {
  }

  /** Per-line results come out in strictly increasing line order. */
  lemma ByLineOrdered<T>(lines: seq<string>, f: (string, nat) -> Option<T>, num: T -> nat)
    requires Stamps(f, num)
    ensures forall a, b :: 0 <= a < b < |Present(ByLine(lines, f), 0)| ==>
              num(Present(ByLine(lines, f), 0)[a]) < num(Present(ByLine(lines, f), 0)[b])
  {
    StampedByPosition(lines, f, num);
    NumberedOrdered(ByLine(lines, f), num);
  }

  /** Each per-line result is what `f` gives for the line its number names. */
  lemma ByLineFromItsLine<T>(lines: seq<string>, f: (string, nat) -> Option<T>, num: T -> nat, k: nat)
    requires Stamps(f, num)
    requires k < |Present(ByLine(lines, f), 0)|
    ensures 1 <= num(Present(ByLine(lines, f), 0)[k]) <= |lines|
    ensures f(lines[num(Present(ByLine(lines, f), 0)[k]) - 1], num(Present(ByLine(lines, f), 0)[k]))
            == Some(Present(ByLine(lines, f), 0)[k])
  {
    StampedByPosition(lines, f, num);
    NumberedFromItsPosition(ByLine(lines, f), num);
  }

  /** Line `i + 1` has a result exactly when `f` gives one for it. */
  lemma ByLineHit<T>(lines: seq<string>, f: (string, nat) -> Option<T>, num: T -> nat, i: nat)
    requires Stamps(f, num) && i < |lines|
    ensures HasNumber(Present(ByLine(lines, f), 0), num, i) <==> f(lines[i], i + 1).Some?
  {
    StampedByPosition(lines, f, num);
    NumberedHit(ByLine(lines, f), num, i);
  }

  /** When `f` gives results only for lines satisfying `ok`, there are at
      most as many results as such lines. */
  lemma ByLineAtMost<T>(lines: seq<string>, f: (string, nat) -> Option<T>, ok: string -> bool)
    requires forall s, n :: f(s, n).Some? ==> ok(s)
    ensures |Present(ByLine(lines, f), 0)| <= CountWhere(lines, ok, 0)
  {
    PresentAtMost(ByLine(lines, f), lines, ok, 0);
  }

  /** When `f` gives results only for lines satisfying `ok`, every per-line
      result sits on such a line. */
  lemma ByLineOnlyWhere<T>(lines: seq<string>, f: (string, nat) -> Option<T>, num: T -> nat, ok: string -> bool, k: nat)
    requires Stamps(f, num)
    requires forall s, n :: f(s, n).Some? ==> ok(s)
    requires k < |Present(ByLine(lines, f), 0)|
    ensures 1 <= num(Present(ByLine(lines, f), 0)[k]) <= |lines|
    ensures ok(lines[num(Present(ByLine(lines, f), 0)[k]) - 1])
  {
    ByLineFromItsLine(lines, f, num, k);
  }
}
