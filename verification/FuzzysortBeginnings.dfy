/** Where words begin in a target, and the table that leads from one beginning to the next
    (src/utils/scripts/fuzzysort.js:637-669). */
module FuzzysortBeginnings {
  predicate IsUpper(c: int) {
    65 <= c <= 90
  }

  predicate IsAlphanum(c: int) {
    IsUpper(c) || 97 <= c <= 122 || 48 <= c <= 57
  }

  /** Where a word, a camel-case hump or a non-alphanumeric character begins. */
  predicate IsBeginning(target: seq<int>, i: int) {
    0 <= i < |target| &&
    (i == 0 || (IsUpper(target[i]) && !IsUpper(target[i - 1])) || !IsAlphanum(target[i - 1]) || !IsAlphanum(target[i]))
  }

  ghost function Beginnings(target: seq<int>): set<int> {
    set i | 0 <= i < |target| && IsBeginning(target, i)
  }

  /** Capitals that follow no capital, every character but letters and digits, and whatever follows one of these; at the
      start anything. Small letters and digits behind letters and digits are none. */
  lemma BeginningsAre(target: seq<int>, i: int)
    ensures i in Beginnings(target) ==> 0 <= i < |target|
    ensures 0 <= i < |target| ==>
      var (c, b) := (target[i], if i == 0 then 32 else target[i - 1]);
      i in Beginnings(target) <==>
      || (c < 48 || 57 < c < 65 || 90 < c < 97 || c > 122) || (b < 48 || 57 < b < 65 || 90 < b < 97 || b > 122)
      || (65 <= c <= 90 && (b < 65 || b > 90))
  {
  }

  /** The least beginning behind `i`, or the length of the target. */
  ghost predicate IsNext(begins: set<int>, length: int, i: int, n: int) {
    && i < n <= length
    && (n < length ==> n in begins)
    && forall k :: i < k < n ==> k !in begins
  }

  /** The table of next beginnings; the start of a target is always one. */
  ghost predicate IsNextTable(begins: set<int>, next: seq<int>) {
    && (next != [] ==> 0 in begins)
    && forall i {:trigger next[i]} :: 0 <= i < |next| ==> IsNext(begins, |next|, i, next[i])
  }

  /** The beginnings of `target` below `upTo`, in order. */
  ghost predicate AreBeginnings(target: seq<int>, b: seq<int>, upTo: int) {
    && (forall k :: 0 <= k < |b| ==> IsBeginning(target, b[k]) && b[k] < upTo)
    && (forall j, k :: 0 <= j < k < |b| ==> b[j] < b[k])
    && (forall i :: 0 <= i < upTo && IsBeginning(target, i) ==> i in b)
  }

  method PrepareBeginningIndexes(target: seq<int>) returns (b: seq<int>)
    ensures AreBeginnings(target, b, |target|)
  {
    b := [];
    var wasUpper, wasAlphanum := false, false;
    for i := 0 to |target|
      invariant AreBeginnings(target, b, i)
      invariant wasUpper == (i > 0 && IsUpper(target[i - 1]))
      invariant wasAlphanum == (i > 0 && IsAlphanum(target[i - 1]))
    {
      var isUpper, isAlphanum := IsUpper(target[i]), IsAlphanum(target[i]);
      var isBeginning := (isUpper && !wasUpper) || !wasAlphanum || !isAlphanum;
      wasUpper, wasAlphanum := isUpper, isAlphanum;
      if isBeginning {
        b := b + [i];
      }
    }
  }

  /** The beginning that comes after the first `k` ones. */
  lemma NextOfList(target: seq<int>, b: seq<int>, k: nat, i: int)
    requires AreBeginnings(target, b, |target|) && k <= |b| && 0 <= i < |target|
    requires k > 0 ==> b[k - 1] <= i
    requires k < |b| ==> i < b[k]
    ensures IsNext(Beginnings(target), |target|, i, if k < |b| then b[k] else |target|)
  {
  }

  method PrepareNextBeginningIndexes(target: seq<int>) returns (next: seq<int>)
    ensures |next| == |target| && IsNextTable(Beginnings(target), next)
  {
    var b := PrepareBeginningIndexes(target);
    next := [];
    var at := 0;
    assert target != [] ==> IsBeginning(target, 0) && 0 in b;
    for i := 0 to |target|
      invariant |next| == i && 0 <= at <= |b| && (target != [] ==> b != [])
      invariant forall k {:trigger next[k]} :: 0 <= k < i ==> IsNext(Beginnings(target), |target|, k, next[k])
      invariant if i == 0 then at == 0 else (at > 0 && b[at - 1] < i && (at < |b| ==> i <= b[at]))
    {
      // `at` is the place in the list of what the loop calls lastIsBeginning; past its end that is undefined.
      if at < |b| && b[at] > i {
        NextOfList(target, b, at, i);
        next := next + [b[at]];
      } else {
        if i == 0 {
          assert forall j :: 0 < j < |b| ==> b[0] < b[j];
          assert IsBeginning(target, b[0]) && b[0] == 0;
        }
        assert at + 1 < |b| ==> b[at] < b[at + 1];
        if at < |b| {
          at := at + 1;
        }
        NextOfList(target, b, at, i);
        next := next + [if at < |b| then b[at] else |target|];
      }
    }
  }
}
