/** `algorithmSpaces`: the words of a search are matched one after the other. Between two of them the target's table of
    next beginnings is edited, and the edits are undone from a log (src/utils/scripts/fuzzysort.js:518-606). */
module FuzzysortSpaces {
  import opened Wrappers
  import opened Alignments
  import opened FuzzysortBeginnings
  import opened FuzzysortScore
  import opened FuzzysortStrict

  /** One edit: where, and the value that was there. */
  datatype Change = Change(index: nat, before: int)

  ghost predicate Fits(log: seq<Change>, n: nat) {
    forall k :: 0 <= k < |log| ==> log[k].index < n
  }

  /** The table before the edits in the log, the last of them taken back first. */
  ghost function Undone(next: seq<int>, log: seq<Change>): (r: seq<int>)
    requires Fits(log, |next|)
    ensures |r| == |next|
    decreases |log|
  {
    if log == [] then next
    else
      var last := log[|log| - 1];
      Undone(next[last.index := last.before], log[..|log| - 1])
  }

  /** Logging an edit keeps the way back. */
  lemma EditUndone(next: seq<int>, log: seq<Change>, i: nat, x: int)
    requires Fits(log, |next|) && i < |next|
    ensures Fits(log + [Change(i, next[i])], |next|)
    ensures Undone(next[i := x], log + [Change(i, next[i])]) == Undone(next, log)
  {
    assert (log + [Change(i, next[i])])[..|log|] == log;
    assert next[i := x][i := next[i]] == next;
  }

  predicate IsConsecutive(indexes: seq<nat>) {
    forall i :: 0 <= i < |indexes| - 1 ==> indexes[i + 1] == indexes[i] + 1
  }

  /** The entries a consecutive match ending before `b` redirects: the run of equal entries from `low` to `b - 1`. */
  ghost predicate IsRedirected(before: seq<int>, after: seq<int>, low: nat, b: nat)
    requires low < b <= |before| == |after|
  {
    && (low == 0 || before[low - 1] != before[b - 1])
    && forall i :: 0 <= i < |before| ==>
         if low <= i < b then before[i] == before[b - 1] && after[i] == b else after[i] == before[i]
  }

  /** Redirecting makes `b` a beginning, and nothing else. */
  lemma RedirectedTable(begins: set<int>, before: seq<int>, after: seq<int>, low: nat, b: nat)
    requires low < b <= |before| == |after| && IsNextTable(begins, before) && IsRedirected(before, after, low, b)
    ensures IsNextTable(begins + {b}, after)
  {
  }

  /** The place behind a match without gaps. */
  function EndOf(result: Option<Found>): set<int> {
    if result.Some? && result.value.indexes != [] && IsConsecutive(result.value.indexes)
    then {result.value.indexes[|result.value.indexes| - 1] + 1} else {}
  }

  /** The result of one word, and how often its search turned back. */
  datatype Outcome = Outcome(result: Option<Found>, backtracks: nat)

  /** What counts as a beginning once some words were matched. */
  ghost function BeginsAfter(begins: set<int>, outcomes: seq<Outcome>): set<int> {
    if outcomes == [] then begins
    else
      var n := |outcomes| - 1;
      BeginsAfter(begins, outcomes[..n]) + EndOf(outcomes[n].result)
  }

  /** The positions of a word have no gaps and end before `x`. */
  ghost predicate EndsBefore(o: Outcome, x: int) {
    o.result.Some? &&
    var m := o.result.value.indexes;
    m != [] && m == Consecutive(m[0], |m|) && m[0] + |m| == x
  }

  /** That is what was one before, and the place behind every word found without gaps. */
  lemma {:induction false} BeginsAfterAre(begins: set<int>, outcomes: seq<Outcome>, x: int)
    ensures x in BeginsAfter(begins, outcomes) <==>
      x in begins || exists i :: 0 <= i < |outcomes| && EndsBefore(outcomes[i], x)
    decreases |outcomes|
  {
    if outcomes != [] {
      var n := |outcomes| - 1;
      BeginsAfterAre(begins, outcomes[..n], x);
      EndsWithoutGaps(outcomes[n], x);
      if EndsBefore(outcomes[n], x) {
      } else if i :| 0 <= i < |outcomes| && EndsBefore(outcomes[i], x) {
        assert outcomes[..n][i] == outcomes[i];
      }
    }
  }

  lemma EndsWithoutGaps(o: Outcome, x: int)
    ensures x in EndOf(o.result) <==> EndsBefore(o, x)
  {
    if o.result.Some? {
      NoGaps(o.result.value.indexes, |o.result.value.indexes|);
    }
  }

  lemma {:induction false} NoGaps(m: seq<nat>, k: nat)
    requires k <= |m|
    ensures IsConsecutive(m[..k]) <==> (k > 0 ==> m[..k] == Consecutive(m[0], k))
  {
    if k > 1 {
      NoGaps(m, k - 1);
      assert IsConsecutive(m[..k]) <==> IsConsecutive(m[..k - 1]) && m[k - 1] == m[k - 2] + 1;
      assert m[..k] == m[..k - 1] + [m[k - 1]];
    }
  }

  /** Every word was matched with the beginnings that those before it left. */
  ghost predicate AreOutcomes(words: seq<Word>, codes: seq<int>, begins: set<int>, outcomes: seq<Outcome>) {
    && |outcomes| <= |words|
    && forall i :: 0 <= i < |outcomes| ==>
         IsResult(words[i], codes, BeginsAfter(begins, outcomes[..i]), outcomes[i].result, outcomes[i].backtracks)
  }

  ghost predicate IsMatched(w: Word, codes: seq<int>) {
    w.codes != [] && Subsequence(w.codes, codes)
  }

  ghost predicate HasPosition(outcomes: seq<Outcome>, p: nat) {
    exists i :: 0 <= i < |outcomes| && outcomes[i].result.Some? && p in outcomes[i].result.value.indexes
  }

  /** The positions of all words, each once. */
  ghost predicate AreSeen(outcomes: seq<Outcome>, seen: seq<nat>) {
    && (forall j, k :: 0 <= j < k < |seen| ==> seen[j] != seen[k])
    && forall p :: p in seen <==> HasPosition(outcomes, p)
  }

  /** Where the last word was found, or 0. */
  function LastSeen(outcomes: seq<Outcome>): nat {
    if outcomes == [] then 0
    else
      var n := |outcomes| - 1;
      var r := outcomes[n].result;
      if r.Some? && r.value.indexes != [] then r.value.indexes[0] else LastSeen(outcomes[..n])
  }

  function Share(score: real, n: nat): real
    requires n > 0
  {
    score / n as real
  }

  /** What a word adds to the score: its share, less two points for every position it goes back. */
  function PartOf(found: Found, last: nat, n: nat): real
    requires n > 0 && found.indexes != []
  {
    Share(found.score, n) - (if found.indexes[0] < last then (last - found.indexes[0]) * 2 else 0) as real
  }

  /** The score of the words of a search. */
  function WordsScore(outcomes: seq<Outcome>, n: nat): real
    requires n > 0
  {
    if outcomes == [] then 0.0
    else
      var k := |outcomes| - 1;
      var (rest, r) := (WordsScore(outcomes[..k], n), outcomes[k].result);
      if r.Some? && r.value.indexes != [] then rest + PartOf(r.value, LastSeen(outcomes[..k]), n) else rest
  }

  /** The positions of the words and their score, unless the phrase as a whole scores higher. */
  ghost predicate AreFound(phrase: Word, words: seq<Word>, codes: seq<int>, begins: set<int>, outcomes: seq<Outcome>,
                           whole: Outcome, found: Found)
    requires words != []
  {
    && |outcomes| == |words| && AreOutcomes(words, codes, begins, outcomes)
    && IsResult(phrase, codes, begins, whole.result, whole.backtracks)
    && var score := WordsScore(outcomes, |words|);
       if whole.result.Some? && whole.result.value.score > score then found == whole.result.value
       else AreSeen(outcomes, found.indexes) && found.score == score
  }

  lemma NothingMatched(words: seq<Word>, codes: seq<int>, begins: set<int>)
    ensures AreOutcomes(words, codes, begins, []) && BeginsAfter(begins, []) == begins && AreSeen([], [])
  {
  }

  lemma OneMoreOutcome(words: seq<Word>, codes: seq<int>, begins: set<int>, outcomes: seq<Outcome>, o: Outcome)
    requires AreOutcomes(words, codes, begins, outcomes) && |outcomes| < |words|
    requires IsResult(words[|outcomes|], codes, BeginsAfter(begins, outcomes), o.result, o.backtracks)
    ensures AreOutcomes(words, codes, begins, outcomes + [o])
    ensures BeginsAfter(begins, outcomes + [o]) == BeginsAfter(begins, outcomes) + EndOf(o.result)
    ensures forall p ::
      HasPosition(outcomes + [o], p) <==> HasPosition(outcomes, p) || (o.result.Some? && p in o.result.value.indexes)
  {
    hide IsResult;
    var more := outcomes + [o];
    assert more[..|outcomes|] == outcomes;
    forall i | 0 <= i < |more|
      ensures IsResult(words[i], codes, BeginsAfter(begins, more[..i]), more[i].result, more[i].backtracks)
    {
      assert i < |outcomes| ==> more[..i] == outcomes[..i];
    }
    forall p
      ensures HasPosition(more, p) <==> HasPosition(outcomes, p) || (o.result.Some? && p in o.result.value.indexes)
    {
      if HasPosition(outcomes, p) {
        var i :| 0 <= i < |outcomes| && outcomes[i].result.Some? && p in outcomes[i].result.value.indexes;
        assert more[i] == outcomes[i];
      }
      assert more[|outcomes|] == o;
    }
  }

  /** Adds the positions of a word to those seen. */
  method AddSeen(seen: seq<nat>, indexes: seq<nat>) returns (seen': seq<nat>)
    requires forall j, k :: 0 <= j < k < |seen| ==> seen[j] != seen[k]
    ensures forall j, k :: 0 <= j < k < |seen'| ==> seen'[j] != seen'[k]
    ensures forall p :: p in seen' <==> p in seen || p in indexes
  {
    seen' := seen;
    for j := 0 to |indexes|
      invariant forall j, k :: 0 <= j < k < |seen'| ==> seen'[j] != seen'[k]
      invariant forall p :: p in seen' <==> p in seen || p in indexes[..j]
    {
      assert indexes[..j + 1] == indexes[..j] + [indexes[j]];
      if indexes[j] !in seen' {
        seen' := seen' + [indexes[j]];
      }
    }
    assert indexes[..|indexes|] == indexes;
  }

  /** A word that was matched was found at some place. */
  lemma ResultMatched(w: Word, codes: seq<int>, begins: set<int>, result: Option<Found>, backtracks: nat)
    requires IsResult(w, codes, begins, result, backtracks)
    ensures result.Some? <==> IsMatched(w, codes)
    ensures result.Some? ==>
      var indexes := result.value.indexes; indexes != [] && indexes[|indexes| - 1] < |codes|
  {
  }

  class BeginningTable {
    const next: array<int>
    var log: seq<Change>
    var changesLen: nat

    constructor (next: array<int>)
      ensures this.next == next && log == [] && changesLen == 0
    {
      this.next := next;
      log, changesLen := [], 0;
    }

    ghost predicate Valid()
      reads this, next
    {
      changesLen <= |log| && Fits(log[..changesLen], next.Length)
    }

    /** The table as it was when the log was empty. */
    ghost function Original(): seq<int>
      requires Valid()
      reads this, next
    {
      Undone(next[..], log[..changesLen])
    }

    /** One logged edit. */
    method Edit(i: nat, x: int)
      requires Valid() && i < next.Length
      modifies this, next
      ensures Valid() && Original() == old(Original()) && next[..] == old(next[..])[i := x]
    {
      EditUndone(next[..], log[..changesLen], i, x);
      log := Stored(log, changesLen, Change(i, next[i]));
      changesLen := changesLen + 1;
      ghost var edited := next[..][i := x];
      next[i] := x;
      assert next[..] == edited;
    }

    /** Makes the place behind a consecutive match a beginning for the searches that follow. */
    method Redirect(indexes: seq<nat>) returns (ghost low: nat)
      requires Valid() && indexes != [] && indexes[|indexes| - 1] < next.Length
      modifies this, next
      ensures Valid() && Original() == old(Original()) && low <= indexes[|indexes| - 1]
      ensures IsRedirected(old(next[..]), next[..], low, indexes[|indexes| - 1] + 1)
    {
      hide Undone, Fits;
      ghost var before := next[..];
      var b := indexes[|indexes| - 1] + 1;
      var toReplace := next[b - 1];
      var i := b - 1;
      while i >= 0
        invariant -1 <= i < b && |before| == next.Length
        invariant Valid() && Original() == old(Original())
        invariant forall k :: 0 <= k < next.Length ==>
          if i < k < b then before[k] == toReplace && next[..][k] == b else next[..][k] == before[k]
      {
        assert next[i] == next[..][i] == before[i];
        if toReplace != next[i] {
          break;
        }
        Edit(i, b);
        i := i - 1;
      }
      low := i + 1;
    }

    /** Does so behind a match, if that has no gaps. */
    method RedirectBehind(indexes: seq<nat>, ghost begins: set<int>)
      requires Valid() && indexes != [] && indexes[|indexes| - 1] < next.Length && IsNextTable(begins, next[..])
      modifies this, next
      ensures Valid() && Original() == old(Original())
      ensures forall x :: IsNextTable(begins + EndOf(Some(Found(indexes, x))), next[..])
    {
      hide Undone, Fits, IsNextTable;
      if IsConsecutive(indexes) {
        ghost var before := next[..];
        ghost var low := Redirect(indexes);
        RedirectedTable(begins, before, next[..], low, indexes[|indexes| - 1] + 1);
      } else {
        assert forall x :: begins + EndOf(Some(Found(indexes, x))) == begins;
      }
    }

    lemma NothingLogged()
      requires Valid() && changesLen == 0
      ensures Original() == next[..]
    {
    }

    /** Takes all edits back. */
    method ResetNextBeginningIndexes()
      requires Valid()
      modifies this`changesLen, next
      ensures next[..] == old(Original()) && Valid() && changesLen == 0
    {
      var i := changesLen - 1;
      while i >= 0
        invariant -1 <= i < changesLen == old(changesLen) && Valid()
        invariant Fits(log[..i + 1], next.Length) && Undone(next[..], log[..i + 1]) == old(Original())
      {
        var c := log[i];
        assert log[..i + 1][..i] == log[..i] && log[..i + 1][i] == c;
        ghost var restored := next[..][c.index := c.before];
        next[c.index] := c.before;
        assert next[..] == restored;
        i := i - 1;
      }
      changesLen := 0;
    }

    /** Matches the words one by one; whatever happens, the table is itself again afterwards. The phrase as a whole is
        matched too, and taken if that scores higher. */
    method AlgorithmSpaces(m: Matches, phrase: Word, words: seq<Word>, codes: seq<int>, allowPartialMatch: bool,
                           ghost begins: set<int>)
      returns (found: Option<Found>, ghost outcomes: seq<Outcome>, ghost whole: Outcome)
      requires Valid() && changesLen == 0 && next.Length == |codes| && IsNextTable(begins, next[..]) && words != []
      modifies this, next, m
      ensures next[..] == old(next[..])
      ensures found.None? <==>
        if allowPartialMatch then forall w :: w in words ==> !IsMatched(w, codes)
          else exists w :: w in words && !IsMatched(w, codes)
      ensures found.Some? ==> AreFound(phrase, words, codes, begins, outcomes, whole, found.value)
    {
      hide Undone, Fits, IsNextTable, IsResult, IsMatched, AreOutcomes, HasPosition, BeginsAfter, PartOf;
      ghost var original := next[..];
      whole := Outcome(None, 0);
      outcomes := [];
      var hasAtLeast1Match := false;
      var score, firstSeenIndexLastSearch := 0.0, 0;
      var seen := [];
      NothingMatched(words, codes, begins);
      NothingLogged();
      for i := 0 to |words|
        invariant Valid() && Original() == original
        invariant i < |words| ==> IsNextTable(BeginsAfter(begins, outcomes), next[..])
        invariant |outcomes| == i && AreOutcomes(words, codes, begins, outcomes) && AreSeen(outcomes, seen)
        invariant score == WordsScore(outcomes, |words|) && firstSeenIndexLastSearch == LastSeen(outcomes)
        invariant !hasAtLeast1Match ==> changesLen == 0
        invariant hasAtLeast1Match <==> exists k :: 0 <= k < i && IsMatched(words[k], codes)
        invariant !allowPartialMatch ==> forall k :: 0 <= k < i ==> IsMatched(words[k], codes)
      {
        ghost var now := BeginsAfter(begins, outcomes);
        var result, backtracks := m.Algorithm(words[i], codes, next[..], now);
        ResultMatched(words[i], codes, now, result, backtracks);
        OneMoreOutcome(words, codes, begins, outcomes, Outcome(result, backtracks));
        assert (outcomes + [Outcome(result, backtracks)])[..i] == outcomes;
        outcomes := outcomes + [Outcome(result, backtracks)];
        if result.None? {
          if allowPartialMatch {
            assert now + {} == now;
            continue;
          }
          ResetNextBeginningIndexes();
          return None, outcomes, whole;
        }
        hasAtLeast1Match := true;
        if i != |words| - 1 {
          RedirectBehind(result.value.indexes, now);
        }
        score := AddScore(score, result.value, firstSeenIndexLastSearch, |words|);
        firstSeenIndexLastSearch := result.value.indexes[0];
        seen := AddSeen(seen, result.value.indexes);
      }
      if allowPartialMatch && !hasAtLeast1Match {
        NothingLogged();
        return None, outcomes, whole;
      }
      ResetNextBeginningIndexes();
      var result, backtracks := m.Algorithm(phrase, codes, next[..], begins);
      whole := Outcome(result, backtracks);
      found := if result.Some? && result.value.score > score then result else Some(Found(seen, score));
    }
  }

  method AddScore(score: real, found: Found, last: nat, n: nat) returns (score': real)
    requires n > 0 && found.indexes != []
    ensures score' == score + PartOf(found, last, n)
  {
    score' := score + found.score / n as real;
    if found.indexes[0] < last {
      score' := score' - ((last - found.indexes[0]) * 2) as real;
    }
  }

  // --- What the score says ---

  lemma ResultStarts(w: Word, codes: seq<int>, begins: set<int>, o: Outcome)
    requires IsResult(w, codes, begins, o.result, o.backtracks) && o.result.Some?
    ensures o.result.value.indexes != [] && (codes == w.codes ==> o.result.value.indexes[0] == 0)
  {
    hide Score, IsChosen, Subsequence, HasStrict, KindOf;
    if codes == w.codes {
      RoomAbove(o.result.value.indexes, |codes|, 0);
    }
  }

  lemma ShareBounds(score: real, n: nat)
    requires score <= 0.0 && n > 0
    ensures Share(score, n) <= 0.0 && (Share(score, n) == 0.0 <==> score == 0.0)
  {
    assert score < 0.0 ==> score / n as real < 0.0;
  }

  /** A word adds its share of the score, and loses two points for every position it starts before the one before it. */
  lemma WordsScoreIs(outcomes: seq<Outcome>, n: nat, o: Outcome)
    requires n > 0
    requires forall i :: 0 <= i < |outcomes| ==> outcomes[i].result.Some? && outcomes[i].result.value.indexes != []
    requires o.result.Some? && o.result.value.indexes != []
    ensures WordsScore([], n) == 0.0
    ensures var (first, before) := (o.result.value.indexes[0],
                                    if outcomes == [] then 0 else outcomes[|outcomes| - 1].result.value.indexes[0]);
      WordsScore(outcomes + [o], n) == WordsScore(outcomes, n) + o.result.value.score / n as real
                                       - (if first < before then 2 * (before - first) else 0) as real
  {
    assert (outcomes + [o])[..|outcomes|] == outcomes;
  }

  /** The phrase is preferred exactly if it scores higher. */
  lemma FoundIsBetter(phrase: Word, words: seq<Word>, codes: seq<int>, begins: set<int>, outcomes: seq<Outcome>,
                      whole: Outcome, found: Found)
    requires words != [] && AreFound(phrase, words, codes, begins, outcomes, whole, found)
    ensures found.score >= WordsScore(outcomes, |words|)
      && (whole.result.Some? ==> found.score >= whole.result.value.score)
    ensures found.score == WordsScore(outcomes, |words|)
      || (whole.result.Some? && found == whole.result.value)
  {
    hide WordsScore, AreOutcomes, IsResult;
  }

  lemma PartBounds(w: Word, codes: seq<int>, begins: set<int>, o: Outcome, last: nat, n: nat)
    requires IsResult(w, codes, begins, o.result, o.backtracks) && o.result.Some? && n > 0
    ensures o.result.value.indexes != []
    ensures var found := o.result.value;
      && PartOf(found, last, n) <= 0.0
      && (PartOf(found, last, n) == 0.0 ==> codes == w.codes)
      && (codes == w.codes ==> found.indexes[0] == 0 && (last == 0 ==> PartOf(found, last, n) == 0.0))
  {
    hide IsResult, Share;
    var found := o.result.value;
    ResultStarts(w, codes, begins, o);
    ResultBounds(w, codes, begins, o.result, o.backtracks);
    ShareBounds(found.score, n);
  }

  lemma SelfMatched(w: Word, codes: seq<int>)
    requires w.codes == codes != []
    ensures IsMatched(w, codes)
  {
    OccurrenceAligns(codes, codes, 0);
  }

  /** If all words are found, their score is never positive, and zero exactly if the target is each of them. */
  lemma {:induction false} WordsBounds(words: seq<Word>, codes: seq<int>, begins: set<int>, outcomes: seq<Outcome>,
                                       n: nat)
    requires AreOutcomes(words, codes, begins, outcomes) && n > 0
      && forall i :: 0 <= i < |outcomes| ==> outcomes[i].result.Some?
    ensures WordsScore(outcomes, n) <= 0.0 && (WordsScore(outcomes, n) == 0.0 ==> LastSeen(outcomes) == 0)
    ensures WordsScore(outcomes, n) == 0.0 <==> forall i :: 0 <= i < |outcomes| ==> words[i].codes == codes
    decreases |outcomes|
  {
    hide IsResult, PartOf, BeginsAfter;
    if outcomes != [] {
      var k := |outcomes| - 1;
      assert forall i :: 0 <= i <= k ==> outcomes[..k][..if i < k then i else k] == outcomes[..i];
      WordsBounds(words, codes, begins, outcomes[..k], n);
      PartBounds(words[k], codes, BeginsAfter(begins, outcomes[..k]), outcomes[k], LastSeen(outcomes[..k]), n);
    }
  }

  /** What is found for a search with spaces scores zero exactly if the target is the phrase, or every word. */
  lemma FoundBounds(phrase: Word, words: seq<Word>, codes: seq<int>, begins: set<int>, outcomes: seq<Outcome>,
                    whole: Outcome, found: Found)
    requires words != [] && AreFound(phrase, words, codes, begins, outcomes, whole, found)
    requires forall w :: w in words ==> IsMatched(w, codes)
    ensures found.score <= 0.0
    ensures found.score == 0.0 <==> codes == phrase.codes || forall w :: w in words ==> w.codes == codes
  {
    hide WordsScore, IsMatched, AreSeen, IsResult;
    forall i | 0 <= i < |outcomes| ensures outcomes[i].result.Some? {
      ResultMatched(words[i], codes, BeginsAfter(begins, outcomes[..i]), outcomes[i].result, outcomes[i].backtracks);
    }
    WordsBounds(words, codes, begins, outcomes, |words|);
    ResultMatched(words[0], codes, BeginsAfter(begins, outcomes[..0]), outcomes[0].result, outcomes[0].backtracks);
    ResultMatched(phrase, codes, begins, whole.result, whole.backtracks);
    if whole.result.Some? {
      ResultBounds(phrase, codes, begins, whole.result, whole.backtracks);
    } else if codes == phrase.codes {
      SelfMatched(phrase, codes);
    }
    assert (forall w :: w in words ==> w.codes == codes) <==> forall i :: 0 <= i < |words| ==> words[i].codes == codes;
  }
}
