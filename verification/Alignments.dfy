/** Alignments of a pattern inside a text: the notion both fuzzy matchers search for.
    Characters are code points, so texts and patterns are sequences of integers. */
module Alignments {

  ghost predicate Increasing(a: seq<nat>) {
    forall i, j :: 0 <= i < j < |a| ==> a[i] < a[j]
  }

  /** `a[i]` is where the i-th pattern character is found. */
  ghost predicate IsAlignment(a: seq<nat>, t: seq<int>, p: seq<int>) {
    && |a| == |p|
    && Increasing(a)
    && (forall i :: 0 <= i < |a| ==> a[i] < |t| && t[a[i]] == p[i])
  }

  ghost predicate Subsequence(p: seq<int>, t: seq<int>) {
    exists a :: IsAlignment(a, t, p)
  }

  /** The pattern stands at `k` as a whole. */
  predicate OccursAt(t: seq<int>, p: seq<int>, k: int) {
    0 <= k && k + |p| <= |t| && forall i :: 0 <= i < |p| ==> t[k + i] == p[i]
  }

  /** An occurrence is an alignment without gaps. */
  function Consecutive(at: nat, n: nat): (a: seq<nat>)
    ensures |a| == n && forall i :: 0 <= i < n ==> a[i] == at + i
  {
    seq(n, i requires 0 <= i < n => at + i)
  }

  lemma OccurrenceAligns(t: seq<int>, p: seq<int>, k: nat)
    requires OccursAt(t, p, k)
    ensures IsAlignment(Consecutive(k, |p|), t, p)
  {
  }

  /** The first position the next character may take after the positions `f`. */
  function NextStart(f: seq<nat>): nat {
    if f == [] then 0 else f[|f| - 1] + 1
  }

  /** No occurrence of `c` in `t[from..to)`. */
  ghost predicate Absent(c: int, t: seq<int>, from: int, to: int) {
    forall k :: 0 <= from <= k < to <= |t| ==> t[k] != c
  }

  /** Every position is the first one possible after its predecessor. */
  ghost predicate Tight(f: seq<nat>, t: seq<int>, p: seq<int>)
    requires |f| <= |p|
    decreases |f|
  {
    f == [] ||
    var n := |f| - 1;
    Tight(f[..n], t, p) && Absent(p[n], t, NextStart(f[..n]), f[n])
  }

  /** A run that takes the first possible position for each of the first `|f|` characters. */
  ghost predicate IsGreedy(f: seq<nat>, t: seq<int>, p: seq<int>) {
    && |f| <= |p|
    && Increasing(f)
    && (forall i :: 0 <= i < |f| ==> f[i] < |t| && t[f[i]] == p[i])
    && Tight(f, t, p)
  }

  lemma GreedyNothing(t: seq<int>, p: seq<int>)
    ensures IsGreedy([], t, p)
  {
  }

  lemma GreedyExtend(f: seq<nat>, t: seq<int>, p: seq<int>, k: nat)
    requires IsGreedy(f, t, p) && |f| < |p|
    requires NextStart(f) <= k < |t| && t[k] == p[|f|]
    requires Absent(p[|f|], t, NextStart(f), k)
    ensures IsGreedy(f + [k], t, p)
  {
  }

  lemma {:induction false} TightAt(f: seq<nat>, t: seq<int>, p: seq<int>, i: nat)
    requires |f| <= |p| && Tight(f, t, p) && i < |f|
    ensures Absent(p[i], t, NextStart(f[..i]), f[i])
    decreases |f|
  {
    var n := |f| - 1;
    if i < n {
      TightAt(f[..n], t, p, i);
      assert f[..n][..i] == f[..i];
    }
  }

  /** A greedy run never overtakes an alignment. */
  lemma {:induction false} GreedyIsLeast(f: seq<nat>, t: seq<int>, p: seq<int>, a: seq<nat>, i: nat)
    requires IsGreedy(f, t, p) && IsAlignment(a, t, p) && i < |f|
    ensures f[i] <= a[i]
  {
    if i > 0 {
      GreedyIsLeast(f, t, p, a, i - 1);
    }
    TightAt(f, t, p, i);
    assert NextStart(f[..i]) <= a[i];
  }

  /** What an alignment uses next lies at or after the place where the greedy run continues. */
  lemma GreedyLeavesRoom(f: seq<nat>, t: seq<int>, p: seq<int>, a: seq<nat>)
    requires IsGreedy(f, t, p) && IsAlignment(a, t, p) && |f| < |p|
    ensures NextStart(f) <= a[|f|]
  {
    if f != [] {
      GreedyIsLeast(f, t, p, a, |f| - 1);
    }
  }

  /** A greedy run that cannot be continued shows that there is no alignment at all. */
  lemma GreedyStuck(f: seq<nat>, t: seq<int>, p: seq<int>)
    requires IsGreedy(f, t, p) && |f| < |p|
    requires Absent(p[|f|], t, NextStart(f), |t|)
    ensures !Subsequence(p, t)
  {
    forall a
      ensures !IsAlignment(a, t, p)
    {
      if IsAlignment(a, t, p) {
        GreedyLeavesRoom(f, t, p, a);
      }
    }
  }

  /** In an increasing sequence of naturals the i-th entry is at least i. */
  lemma {:induction false} IncreasingAbove(a: seq<nat>, i: nat)
    requires Increasing(a) && i < |a|
    ensures a[i] >= a[0] + i
  {
    if i > 0 {
      IncreasingAbove(a, i - 1);
    }
  }
}
