/** `go` on its no-key and single-key paths: every target that is not passed over is matched, and at most `limit`
    results are kept in a heap shared by all calls, read out in descending order
    (src/utils/scripts/fuzzysort.js:41-80, 168-188, 297-315, 379-380). */
module FuzzysortGo {
  import opened Wrappers
  import opened Alignments
  import opened FuzzysortBeginnings
  import opened FuzzysortStrict
  import opened FuzzysortSpaces
  import opened FuzzysortQueue
  import FuzzysortFlags

  /** A prepared search; one with spaces has words. */
  datatype Search = Search(phrase: Word, words: seq<Word>, containsSpace: bool, bitflags: FuzzysortFlags.Bits)

  predicate IsSearch(s: Search) {
    && s.bitflags == FuzzysortFlags.Flags(s.phrase.codes) && (s.containsSpace <==> 32 in s.phrase.codes)
    && (s.containsSpace ==> s.words != [])
  }

  /** A prepared target: as written and in lower case. */
  datatype Target = Target(text: seq<int>, codes: seq<int>, bitflags: FuzzysortFlags.Bits)

  predicate IsTarget(t: Target) {
    |t.text| == |t.codes| && t.bitflags == FuzzysortFlags.Flags(t.codes)
  }

  ghost predicate IsMatch(s: Search, t: Target) {
    if s.containsSpace then forall w :: w in s.words ==> IsMatched(w, t.codes) else IsMatched(s.phrase, t.codes)
  }

  /** What `algorithm` finds for a target. */
  ghost predicate Explains(s: Search, t: Target, found: Option<Found>)
    requires IsSearch(s)
  {
    var begins := Beginnings(t.text);
    if s.containsSpace then
      && (found.Some? <==> IsMatch(s, t))
      && (found.Some? ==>
          exists outcomes, whole :: AreFound(s.phrase, s.words, t.codes, begins, outcomes, whole, found.value))
    else exists backtracks :: IsResult(s.phrase, t.codes, begins, found, backtracks)
  }

  /** The target is what is searched for, or every word of it. */
  ghost predicate IsPerfect(s: Search, t: Target) {
    t.codes == s.phrase.codes || (s.containsSpace && forall w :: w in s.words ==> w.codes == t.codes)
  }

  /** Targets are found exactly if they match, with scores that are zero for perfect ones and negative for others. */
  lemma ExplainsIff(s: Search, t: Target, found: Option<Found>)
    requires IsSearch(s) && Explains(s, t, found)
    ensures found.Some? <==> IsMatch(s, t)
    ensures found.Some? ==> found.value.score <= 0.0 && (found.value.score == 0.0 <==> IsPerfect(s, t))
  {
    hide IsResult, AreFound, IsMatched, FuzzysortFlags.Flags, Beginnings;
    var begins := Beginnings(t.text);
    if s.containsSpace {
      if found.Some? {
        var outcomes, whole :| AreFound(s.phrase, s.words, t.codes, begins, outcomes, whole, found.value);
        FoundBounds(s.phrase, s.words, t.codes, begins, outcomes, whole, found.value);
      }
    } else {
      var backtracks :| IsResult(s.phrase, t.codes, begins, found, backtracks);
      ResultMatched(s.phrase, t.codes, begins, found, backtracks);
      if found.Some? {
        ResultBounds(s.phrase, t.codes, begins, found, backtracks);
      }
    }
  }

  /** Passing targets over loses none if only spaces separate the words. */
  lemma FilterIsLossless(s: Search, t: Target)
    requires IsSearch(s) && IsTarget(t)
    requires s.containsSpace ==> forall c :: c in s.phrase.codes && c != 32 ==> exists w :: w in s.words && c in w.codes
    ensures IsMatch(s, t) ==> FuzzysortFlags.Passes(s.bitflags, t.bitflags)
  {
    hide FuzzysortFlags.Flags, FuzzysortFlags.Passes;
    if IsMatch(s, t) {
      if s.containsSpace {
        var words := seq(|s.words|, i requires 0 <= i < |s.words| => s.words[i].codes);
        forall c | c in s.phrase.codes && c != 32 ensures exists w :: w in words && c in w {
          var w :| w in s.words && c in w.codes;
          var i :| 0 <= i < |s.words| && s.words[i] == w;
          assert words[i] == w.codes;
        }
        forall w | w in words ensures Subsequence(w, t.codes) {
          var i :| 0 <= i < |words| && words[i] == w;
          assert IsMatched(s.words[i], t.codes);
        }
        FuzzysortFlags.WordsPass(s.phrase.codes, words, t.codes);
      } else {
        FuzzysortFlags.SubsequencePasses(s.phrase.codes, t.codes);
      }
    }
  }

  /** What is found for the targets, passed over or not. */
  ghost predicate AreMatched(s: Search, targets: seq<Target>, found: seq<Option<Found>>)
    requires IsSearch(s)
  {
    && |found| == |targets|
    && forall i :: 0 <= i < |found| ==>
         if FuzzysortFlags.Passes(s.bitflags, targets[i].bitflags) then Explains(s, targets[i], found[i])
         else found[i].None?
  }

  lemma OneMoreMatched(s: Search, targets: seq<Target>, found: seq<Option<Found>>, f: Option<Found>)
    requires IsSearch(s) && |found| < |targets| && AreMatched(s, targets[..|found|], found)
    requires if FuzzysortFlags.Passes(s.bitflags, targets[|found|].bitflags) then Explains(s, targets[|found|], f)
             else f.None?
    ensures AreMatched(s, targets[..|found| + 1], found + [f])
  {
  }

  ghost predicate IsHit(s: Search, t: Target) {
    FuzzysortFlags.Passes(s.bitflags, t.bitflags) && IsMatch(s, t)
  }

  ghost function Hits(s: Search, targets: seq<Target>): nat {
    if targets == [] then 0
    else
      var n := |targets| - 1;
      Hits(s, targets[..n]) + if IsHit(s, targets[n]) then 1 else 0
  }

  predicate Reaches(found: Option<Found>, threshold: Option<real>) {
    found.Some? && (threshold.None? || found.value.score >= threshold.value)
  }

  /** What is found that reaches the threshold, in target order. */
  function Kept(found: seq<Option<Found>>, threshold: Option<real>): (k: seq<Result>)
    ensures |k| <= |found|
  {
    if found == [] then []
    else
      var n := |found| - 1;
      var rest := Kept(found[..n], threshold);
      if Reaches(found[n], threshold) then rest + [Result(n, found[n].value.score)] else rest
  }

  lemma KeptOne(found: seq<Option<Found>>, threshold: Option<real>, f: Option<Found>)
    ensures Kept(found + [f], threshold)
         == if Reaches(f, threshold) then Kept(found, threshold) + [Result(|found|, f.value.score)]
            else Kept(found, threshold)
  {
    assert (found + [f])[..|found|] == found;
  }

  lemma {:induction false} KeptIff(found: seq<Option<Found>>, threshold: Option<real>, r: Result)
    ensures r in Kept(found, threshold)
       <==> 0 <= r.target < |found| && found[r.target].Some? && r.score == found[r.target].value.score
              && (threshold.Some? ==> r.score >= threshold.value)
  {
    if found != [] {
      KeptIff(found[..|found| - 1], threshold, r);
    }
  }

  /** Without a threshold, exactly the targets that pass and match are kept. */
  lemma {:induction false} KeptAreHits(s: Search, targets: seq<Target>, found: seq<Option<Found>>)
    requires IsSearch(s) && AreMatched(s, targets, found)
    ensures |Kept(found, None)| == Hits(s, targets)
  {
    hide Explains, IsMatch, FuzzysortFlags.Passes, IsSearch;
    if targets != [] {
      var n := |targets| - 1;
      KeptAreHits(s, targets[..n], found[..n]);
      if FuzzysortFlags.Passes(s.bitflags, targets[n].bitflags) {
        ExplainsIff(s, targets[n], found[n]);
      }
    }
  }

  ghost predicate Descending(s: seq<Result>) {
    forall i, j :: 0 <= i < j < |s| ==> s[i].score >= s[j].score
  }

  /** `top` are `n` of the results `all`, and no other result scores higher than any of them. */
  ghost predicate IsTop(top: multiset<Result>, all: multiset<Result>, n: nat) {
    && top <= all && |top| == n
    && forall x, y :: x in all - top && y in top ==> x.score <= y.score
  }

  /** A result that does not beat the least of the top leaves the top as it is. */
  lemma TopStays(top: multiset<Result>, all: multiset<Result>, n: nat, r: Result, least: Result)
    requires IsTop(top, all, n) && least in top && r.score <= least.score
    requires forall y :: y in top ==> least.score <= y.score
    ensures IsTop(top, all + multiset{r}, n)
  {
  }

  /** A result that beats the least of the top takes its place. */
  lemma TopChanges(top: multiset<Result>, all: multiset<Result>, n: nat, r: Result, least: Result)
    requires IsTop(top, all, n) && least in top && r.score > least.score
    requires forall y :: y in top ==> least.score <= y.score
    ensures IsTop(top - multiset{least} + multiset{r}, all + multiset{r}, n)
  {
  }

  lemma TopGrows(top: multiset<Result>, all: multiset<Result>, n: nat, r: Result)
    requires IsTop(top, all, n) && top == all
    ensures IsTop(top + multiset{r}, all + multiset{r}, n + 1)
  {
  }

  /** What has been read out of the heap is in order and nowhere above what is left in it. */
  ghost predicate PartlyRead(left: multiset<Result>, results: seq<Result>, all: multiset<Result>) {
    && left + multiset(results) == all && Descending(results)
    && forall x, y :: x in left && y in multiset(results) ==> x.score >= y.score
  }

  lemma NothingRead(all: multiset<Result>)
    ensures PartlyRead(all, [], all)
  {
  }

  lemma ReadNext(left: multiset<Result>, results: seq<Result>, all: multiset<Result>, r: Result)
    requires PartlyRead(left, results, all) && r in left && forall x :: x in left ==> r.score <= x.score
    ensures PartlyRead(left - multiset{r}, [r] + results, all)
  {
  }

  lemma AllRead(left: multiset<Result>, results: seq<Result>, all: multiset<Result>)
    requires PartlyRead(left, results, all) && |left| == 0
    ensures left == multiset{} && multiset(results) == all && |results| == |all| && Descending(results)
  {
  }

  /** If there is a perfect target, the first result is one. */
  lemma PerfectComesFirst(s: Search, targets: seq<Target>, found: seq<Option<Found>>, threshold: Option<real>,
                          limit: Option<nat>, results: seq<Result>, i: nat)
    requires IsSearch(s) && AreMatched(s, targets, found) && (threshold.Some? ==> threshold.value <= 0.0)
    requires Descending(results) && IsTop(multiset(results), multiset(Kept(found, threshold)), |results|)
    requires var total := |Kept(found, threshold)|;
      |results| == if limit.Some? && limit.value < total then limit.value else total
    requires limit.Some? ==> limit.value > 0
    requires i < |targets| && IsHit(s, targets[i]) && IsPerfect(s, targets[i])
    ensures results != [] && 0 <= results[0].target < |targets| && IsPerfect(s, targets[results[0].target])
  {
    hide Explains, IsMatch, IsPerfect, FuzzysortFlags.Passes, IsSearch, Kept, IsTop;
    var kept := Kept(found, threshold);
    ExplainsIff(s, targets[i], found[i]);
    KeptIff(found, threshold, Result(i, 0.0));
    FirstIsBest(results, kept, Result(i, 0.0));
    var first := results[0];
    KeptIff(found, threshold, first);
    ExplainsIff(s, targets[first.target], found[first.target]);
  }

  lemma FirstIsBest(results: seq<Result>, kept: seq<Result>, r: Result)
    requires results != [] && Descending(results) && IsTop(multiset(results), multiset(kept), |results|) && r in kept
    ensures results[0] in kept && results[0].score >= r.score
  {
    assert results[0] in multiset(results) && r in multiset(kept);
    if r !in multiset(results) {
      assert r in multiset(kept) - multiset(results);
    }
  }

  class Searcher {
    const q: FastPriorityQueue
    const matches: Matches

    constructor ()
      ensures fresh(q) && fresh(matches) && Idle()
    {
      q := new FastPriorityQueue();
      matches := new Matches();
    }

    /** Between two calls the shared heap is empty. */
    ghost predicate Idle()
      reads q
    {
      q.Valid() && q.Contents() == multiset{}
    }

    /** `algorithm`: a search with spaces goes word by word. */
    method Algorithm(s: Search, t: Target) returns (found: Option<Found>)
      requires IsSearch(s) && IsTarget(t)
      modifies matches
      ensures Explains(s, t, found)
    {
      hide IsResult, AreFound, IsMatched, IsNextTable, Beginnings, FuzzysortFlags.Flags;
      var next := PrepareNextBeginningIndexes(t.text);
      ghost var begins := Beginnings(t.text);
      if s.containsSpace {
        var table := new int[|next|](i requires 0 <= i < |next| => next[i]);
        assert table[..] == next;
        var t' := new BeginningTable(table);
        ghost var outcomes, whole;
        found, outcomes, whole := t'.AlgorithmSpaces(matches, s.phrase, s.words, t.codes, false, begins);
      } else {
        var backtracks;
        found, backtracks := matches.Algorithm(s.phrase, t.codes, next, begins);
      }
    }

    /** `push_result` for one match. */
    method PushResult(r: Result, limit: Option<nat>, resultsLen: nat, limitedCount: nat, ghost all: multiset<Result>)
      returns (resultsLen': nat, limitedCount': nat)
      requires q.Valid() && IsTop(q.Contents(), all, resultsLen) && |all| == resultsLen + limitedCount
      requires limit.Some? ==> resultsLen <= limit.value && limit.value > 0
      requires limitedCount > 0 ==> limit.Some? && resultsLen == limit.value
      modifies q
      ensures q.Valid() && IsTop(q.Contents(), all + multiset{r}, resultsLen')
      ensures resultsLen' + limitedCount' == resultsLen + limitedCount + 1
      ensures limit.Some? ==> resultsLen' <= limit.value
      ensures limitedCount' > 0 ==> limit.Some? && resultsLen' == limit.value
    {
      hide IsHeap;
      resultsLen', limitedCount' := resultsLen, limitedCount;
      ghost var top := q.Contents();
      if limit.None? || resultsLen < limit.value {
        TopIsAll(top, all, resultsLen);
        TopGrows(top, all, resultsLen, r);
        q.Add(r);
        resultsLen' := resultsLen + 1;
      } else {
        limitedCount' := limitedCount + 1;
        RootIsLeastOfAll(q.e, q.o);
        assert q.Peek() == q.e[..q.o][0];
        if r.score > q.Peek().score {
          TopChanges(top, all, resultsLen, r, q.Peek());
          q.ReplaceTop(r);
        } else {
          TopStays(top, all, resultsLen, r, q.Peek());
        }
      }
    }

    /** Empties the heap into an array, from its last place to its first. */
    method ReadOut(n: nat) returns (results: seq<Result>)
      requires q.Valid() && |q.Contents()| == n
      modifies q
      ensures q.Valid() && q.Contents() == multiset{}
      ensures multiset(results) == old(q.Contents()) && |results| == n && Descending(results)
    {
      hide FastPriorityQueue.Valid, PartlyRead;
      results := [];
      NothingRead(q.Contents());
      var i := n - 1;
      while i >= 0
        invariant -1 <= i < n && q.Valid() && |q.Contents()| == i + 1
        invariant PartlyRead(q.Contents(), results, old(q.Contents()))
        decreases i
      {
        ghost var before := q.Contents();
        var r := q.Poll();
        ReadNext(before, results, old(q.Contents()), r);
        results := [r] + results;
        i := i - 1;
      }
      AllRead(q.Contents(), results, old(q.Contents()));
    }

    /** The heap holds the best of what is found so far, and the rest was counted. */
    ghost predicate Holds(found: seq<Option<Found>>, threshold: Option<real>, limit: Option<nat>, resultsLen: nat,
                          limitedCount: nat)
      reads q
    {
      && q.Valid() && IsTop(q.Contents(), multiset(Kept(found, threshold)), resultsLen)
      && |Kept(found, threshold)| == resultsLen + limitedCount
      && (limit.Some? ==> resultsLen <= limit.value)
      && (limitedCount > 0 ==> limit.Some? && resultsLen == limit.value)
    }

    /** What becomes of a target's result. */
    method Consider(result: Option<Found>, i: nat, threshold: Option<real>, limit: Option<nat>, resultsLen: nat,
                    limitedCount: nat, ghost found: seq<Option<Found>>)
      returns (resultsLen': nat, limitedCount': nat)
      requires |found| == i && Holds(found, threshold, limit, resultsLen, limitedCount)
        && (limit.Some? ==> limit.value > 0)
      modifies q
      ensures Holds(found + [result], threshold, limit, resultsLen', limitedCount')
    {
      hide FastPriorityQueue.Valid, IsTop, Kept;
      KeptOne(found, threshold, result);
      if result.None? || (threshold.Some? && result.value.score < threshold.value) {
        return resultsLen, limitedCount;
      }
      var r := Result(i, result.value.score);
      resultsLen', limitedCount' := PushResult(r, limit, resultsLen, limitedCount, multiset(Kept(found, threshold)));
    }

    method Go(s: Search, targets: seq<Target>, threshold: Option<real>, limit: Option<nat>)
      returns (results: seq<Result>, total: nat, ghost found: seq<Option<Found>>)
      requires IsSearch(s) && (forall i :: 0 <= i < |targets| ==> IsTarget(targets[i]))
      requires Idle() && (limit.Some? ==> limit.value > 0)
      modifies q, matches
      ensures Idle() && AreMatched(s, targets, found)
      ensures total == |Kept(found, threshold)| && (threshold.None? ==> total == Hits(s, targets))
      ensures |results| == if limit.Some? && limit.value < total then limit.value else total
      ensures Descending(results)
      ensures IsTop(multiset(results), multiset(Kept(found, threshold)), |results|)
    {
      hide Holds, Kept, FuzzysortFlags.Passes, Explains, IsTarget, IsSearch, AreMatched;
      var resultsLen, limitedCount := 0, 0;
      found := [];
      assert targets[..0] == [];
      NothingFound(s, threshold, limit);
      for i := 0 to |targets|
        invariant |found| == i && AreMatched(s, targets[..i], found)
        invariant Holds(found, threshold, limit, resultsLen, limitedCount)
      {
        if !FuzzysortFlags.Passes(s.bitflags, targets[i].bitflags) {
          NothingMore(found, threshold, limit, resultsLen, limitedCount);
          OneMoreMatched(s, targets, found, None);
          found := found + [None];
          continue;
        }
        var result := Algorithm(s, targets[i]);
        OneMoreMatched(s, targets, found, result);
        resultsLen, limitedCount := Consider(result, i, threshold, limit, resultsLen, limitedCount, found);
        found := found + [result];
      }
      assert targets[..|targets|] == targets;
      total := resultsLen + limitedCount;
      KeptAreHits(s, targets, found);
      results := ReadTop(threshold, limit, resultsLen, limitedCount, found);
    }

    lemma NothingFound(s: Search, threshold: Option<real>, limit: Option<nat>)
      requires IsSearch(s) && Idle()
      ensures AreMatched(s, [], []) && Holds([], threshold, limit, 0, 0)
    {
    }

    lemma NothingMore(found: seq<Option<Found>>, threshold: Option<real>, limit: Option<nat>, resultsLen: nat,
                      limitedCount: nat)
      requires Holds(found, threshold, limit, resultsLen, limitedCount)
      ensures Holds(found + [None], threshold, limit, resultsLen, limitedCount)
    {
      hide FastPriorityQueue.Valid, IsTop, Kept;
      KeptOne(found, threshold, None);
    }

    method ReadTop(threshold: Option<real>, limit: Option<nat>, resultsLen: nat, limitedCount: nat,
                   ghost found: seq<Option<Found>>)
      returns (results: seq<Result>)
      requires Holds(found, threshold, limit, resultsLen, limitedCount)
      modifies q
      ensures Idle() && |Kept(found, threshold)| == resultsLen + limitedCount
      ensures var total := resultsLen + limitedCount;
        |results| == if limit.Some? && limit.value < total then limit.value else total
      ensures Descending(results)
      ensures IsTop(multiset(results), multiset(Kept(found, threshold)), |results|)
    {
      hide FastPriorityQueue.Valid, IsTop, Kept;
      TopSize(q.Contents(), multiset(Kept(found, threshold)), resultsLen);
      if resultsLen == 0 {
        return [];
      }
      results := ReadOut(resultsLen);
    }
  }

  lemma TopSize(top: multiset<Result>, all: multiset<Result>, n: nat)
    requires IsTop(top, all, n)
    ensures |top| == n && (n == 0 ==> top == multiset{})
  {
  }

  /** As many of a multiset as there are is all of it. */
  lemma TopIsAll(top: multiset<Result>, all: multiset<Result>, n: nat)
    requires IsTop(top, all, n) && |all| == n
    ensures top == all
  {
    assert |all - top| == 0;
  }
}
