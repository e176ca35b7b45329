/**
 Severities and their numeric weights, and the one ordering every rule
 catalogue is put in before use: Python's stable `list.sort(key=lambda x:
 -x.priority)`, i.e. higher priority first and, among equal priorities, the
 order in which the rules were defined.
 */
module Severity {

  /** A finding's severity label. The tools look labels up in a dictionary
      with a default, so a label outside the three known ones is kept. */
  datatype Severity = High | Medium | Low | Unknown(name: string)

  /** `SEVERITY_WEIGHTS.get(severity, 2)` of the claim and buzzword tools. */
  function Weight(s: Severity): nat
  {
    match s
    case High => 3
    case Medium => 2
    case Low => 1
    case Unknown(_) => 2
  }

  /** `SEVERITY_DEDUCTIONS.get(severity, 5)` of the ATS tool, in points. */
  function Deduction(s: Severity): nat
  {
    match s
    case High => 15
    case Medium => 8
    case Low => 3
    case Unknown(_) => 5
  }

  /** Sum of `Weight` over a list of severities. */
  function TotalWeight(sevs: seq<Severity>): nat
  {
    if sevs == [] then 0 else Weight(sevs[0]) + TotalWeight(sevs[1..])
  }

  /** Sum of `Deduction` over a list of severities. */
  function TotalDeduction(sevs: seq<Severity>): nat
  {
    if sevs == [] then 0 else Deduction(sevs[0]) + TotalDeduction(sevs[1..])
  }

  /** Every weight is between 1 and 3, so the total lies between the length
      and three times the length. */
  lemma {:induction false} TotalWeightBounds(sevs: seq<Severity>)
    ensures |sevs| <= TotalWeight(sevs) <= 3 * |sevs|
  {
    if sevs != [] {
      TotalWeightBounds(sevs[1..]);
    }
  }

  lemma {:induction false} TotalWeightAppend(a: seq<Severity>, b: seq<Severity>)
    ensures TotalWeight(a + b) == TotalWeight(a) + TotalWeight(b)
  {
    if a == [] {
      assert a + b == b;
    } else {
      assert (a + b)[0] == a[0];
      assert (a + b)[1..] == a[1..] + b;
      TotalWeightAppend(a[1..], b);
    }
  }

  lemma {:induction false} TotalDeductionAppend(a: seq<Severity>, b: seq<Severity>)
    ensures TotalDeduction(a + b) == TotalDeduction(a) + TotalDeduction(b)
  {
    if a == [] {
      assert a + b == b;
    } else {
      assert (a + b)[0] == a[0];
      assert (a + b)[1..] == a[1..] + b;
      TotalDeductionAppend(a[1..], b);
    }
  }
}

/**
 The shape shared by the claim and buzzword scores: one minus the weighted
 findings over an expected budget (at least 1), floored at 0.
 */
module Scoring {

  function Max(a: real, b: real): real
  {
    if a >= b then a else b
  }

  /** `max(0.0, 1.0 - weighted / max(budget, 1))`. */
  function BudgetScore(weighted: nat, budget: real): (r: real)
    ensures 0.0 <= r <= 1.0
    ensures weighted == 0 ==> r == 1.0
  {
    Max(0.0, 1.0 - weighted as real / Max(budget, 1.0))
  }

  /** The score is perfect exactly when nothing was weighed against it. */
  lemma BudgetScorePerfect(weighted: nat, budget: real)
    ensures BudgetScore(weighted, budget) == 1.0 <==> weighted == 0
  {
    if weighted > 0 {
      var d := Max(budget, 1.0);
      assert weighted as real / d > 0.0;
    }
  }

  /** The score reaches 0 exactly when the weight uses up the whole budget. */
  lemma BudgetScoreZero(weighted: nat, budget: real)
    ensures BudgetScore(weighted, budget) == 0.0 <==> weighted as real >= Max(budget, 1.0)
  {
    QuotientAtLeastOne(weighted as real, Max(budget, 1.0));
  }

  lemma QuotientAtLeastOne(w: real, d: real)
    requires d > 0.0
    ensures w / d >= 1.0 <==> w >= d
  {
    assert d / d == 1.0;
    assert w / d - d / d == (w - d) / d;
    if w >= d {
      assert (w - d) / d >= 0.0;
    } else {
      assert (w - d) / d < 0.0;
    }
  }

  /** More weight never raises the score. */
  lemma BudgetScoreAntitone(w1: nat, w2: nat, budget: real)
    requires w1 <= w2
    ensures BudgetScore(w2, budget) <= BudgetScore(w1, budget)
  {
    DivideMonotone(w1 as real, w2 as real, Max(budget, 1.0));
  }

  lemma DivideMonotone(x: real, y: real, d: real)
    requires x <= y && d > 0.0
    ensures x / d <= y / d
  {
    assert y / d - x / d == (y - x) / d;
  }
}

module Catalogue {

  /** Rule `i` is placed before rule `j`: strictly higher priority, or equal
      priority and defined earlier. This is the key of a stable sort by
      descending priority. */
  predicate Precedes(prio: seq<int>, i: nat, j: nat)
    requires i < |prio| && j < |prio|
  {
    prio[i] > prio[j] || (prio[i] == prio[j] && i < j)
  }

  predicate InRange(prio: seq<int>, o: seq<nat>)
  {
    forall k :: 0 <= k < |o| ==> o[k] < |prio|
  }

  /** `o` lists rule indices in `Precedes` order. */
  predicate Ordered(prio: seq<int>, o: seq<nat>)
    requires InRange(prio, o)
  {
    forall a, b :: 0 <= a < b < |o| ==> Precedes(prio, o[a], o[b])
  }

  /** `o` is a rearrangement of all rule indices `0 .. |prio|-1`, in the
      order of a stable sort by descending priority. */
  predicate IsPriorityOrder(prio: seq<int>, o: seq<nat>)
  {
    && |o| == |prio|
    && InRange(prio, o)
    && Ordered(prio, o)
    && (forall x :: 0 <= x < |prio| ==> x in o)
  }

  lemma PrecedesTotal(prio: seq<int>, i: nat, j: nat)
    requires i < |prio| && j < |prio| && i != j
    ensures Precedes(prio, i, j) != Precedes(prio, j, i)
  {
  }

  /** Inserts rule index `x` into the ordered list `s`. */
  function Insert(prio: seq<int>, x: nat, s: seq<nat>): (r: seq<nat>)
    requires x < |prio| && InRange(prio, s)
    requires Ordered(prio, s) && x !in s
    ensures |r| == |s| + 1
    ensures forall y :: y in r <==> (y in s || y == x)
    ensures InRange(prio, r) && Ordered(prio, r)
  {
    if s == [] then [x]
    else if Precedes(prio, x, s[0]) then
      [x] + s
    else
      var t := Insert(prio, x, s[1..]);
      assert forall y :: y in s <==> (y == s[0] || y in s[1..]);
      var r := [s[0]] + t;
      assert forall k :: 0 <= k < |t| ==> Precedes(prio, s[0], t[k]) by {
        forall k | 0 <= k < |t| ensures Precedes(prio, s[0], t[k]) {
          if t[k] == x {
            PrecedesTotal(prio, x, s[0]);
          } else {
            assert t[k] in t;
            assert t[k] in s[1..];
            var m :| 0 <= m < |s[1..]| && s[1..][m] == t[k];
            assert s[m + 1] == t[k];
          }
        }
      }
      assert forall a, b :: 0 < a < b < |r| ==> r[a] == t[a - 1] && r[b] == t[b - 1];
      r
  }

  /** The stable descending-priority order of the first `n` rules, built by
      inserting each rule in definition order. */
  function OrderOfFirst(prio: seq<int>, n: nat): (o: seq<nat>)
    requires n <= |prio|
    ensures |o| == n && InRange(prio, o) && Ordered(prio, o)
    ensures forall y: nat :: y in o <==> y < n
  {
    if n == 0 then []
    else Insert(prio, n - 1, OrderOfFirst(prio, n - 1))
  }

  /** The order a rule catalogue is put in: every rule exactly once, higher
      priority first, ties in definition order. */
  function PriorityOrder(prio: seq<int>): (o: seq<nat>)
    ensures IsPriorityOrder(prio, o)
  {
    OrderOfFirst(prio, |prio|)
  }

  /** The sort key of every entry of a table once compiled. */
  function CompiledKeys<D, C>(defs: seq<D>, compile: D -> C, key: C -> int): (p: seq<int>)
    ensures |p| == |defs|
    ensures forall k :: 0 <= k < |defs| ==> p[k] == key(compile(defs[k]))
  {
    seq(|defs|, k requires 0 <= k < |defs| => key(compile(defs[k])))
  }

  /** Compiling a table entry by entry and then sorting the compiled list
      with `sort(key=lambda x: -key(x))`: every entry compiled exactly once,
      higher keys first, equal keys in table order. */
  function CompileSorted<D, C>(defs: seq<D>, compile: D -> C, key: C -> int): (r: seq<C>)
    ensures |r| == |defs|
    ensures forall a, b :: 0 <= a < b < |r| ==> key(r[a]) >= key(r[b])
    ensures exists o :: && IsPriorityOrder(CompiledKeys(defs, compile, key), o)
                        && forall k :: 0 <= k < |r| ==> r[k] == compile(defs[o[k]])
  {
    var prio := CompiledKeys(defs, compile, key);
    var o := PriorityOrder(prio);
    var r := seq(|o|, k requires 0 <= k < |o| => compile(defs[o[k]]));
    assert forall a, b :: 0 <= a < b < |r| ==> Precedes(prio, o[a], o[b]);
    r
  }

  /** The order is determined by the key alone: any two arrangements of all
      rules that respect `Precedes` are the same. So any stable sort by
      descending priority produces exactly `PriorityOrder`. */
  lemma PriorityOrderUnique(prio: seq<int>, o1: seq<nat>, o2: seq<nat>)
    requires IsPriorityOrder(prio, o1) && IsPriorityOrder(prio, o2)
    ensures o1 == o2
  {
    SamePrefix(prio, o1, o2, |o1|);
    assert o1 == o1[..|o1|] && o2 == o2[..|o2|];
  }

  lemma {:induction false} SamePrefix(prio: seq<int>, o1: seq<nat>, o2: seq<nat>, n: nat)
    requires IsPriorityOrder(prio, o1) && IsPriorityOrder(prio, o2) && n <= |o1|
    ensures o1[..n] == o2[..n]
  {
    if n > 0 {
      SamePrefix(prio, o1, o2, n - 1);
      var i := n - 1;
      var y, z := o1[i], o2[i];
      assert forall j :: 0 <= j < i ==> o1[j] == o2[j] by {
        forall j | 0 <= j < i ensures o1[j] == o2[j] {
          assert o1[..n - 1][j] == o2[..n - 1][j];
        }
      }
      assert y in o2;
      var j :| 0 <= j < |o2| && o2[j] == y;
      assert z in o1;
      var j' :| 0 <= j' < |o1| && o1[j'] == z;
      assert j > i ==> Precedes(prio, z, y);
      assert j' > i ==> Precedes(prio, y, z);
      assert o1[..n] == o1[..n - 1] + [y];
      assert o2[..n] == o2[..n - 1] + [z];
    }
  }
}
