/** fuzzysort's matching of one word against one target: the simple greedy match, the strict match by depth-first search
    with a capped number of backtracks, the search for the word as a whole, the choice between them and its score
    (src/utils/scripts/fuzzysort.js:379-517). */
module FuzzysortStrict {
  import opened Wrappers
  import opened Alignments
  import opened FuzzysortBeginnings
  import opened FuzzysortScore

  const MAX_BACKTRACKS := 200

  // --- The simple match ---

  /** Reading past the end of an array gives undefined. */
  function CodeAt(s: seq<int>, i: int): Option<int> {
    if 0 <= i < |s| then Some(s[i]) else None
  }

  /** Stores into a growable array at an index not beyond its length. */
  function Stored<T>(s: seq<T>, k: nat, x: T): (r: seq<T>)
    requires k <= |s|
    ensures k < |r| && r[..k + 1] == s[..k] + [x]
  {
    if k < |s| then s[k := x] else s + [x]
  }

  /** The global match arrays; what lies behind the lengths in use is left over from earlier calls. */
  class Matches {
    var simple: seq<nat>
    var strict: seq<nat>

    constructor ()
      ensures simple == [] && strict == []
    {
      simple, strict := [], [];
    }

    /** The first walk through the target: every search character at the first place possible. */
    method SimpleMatch(search: seq<int>, target: seq<int>) returns (found: bool)
      modifies this`simple
      ensures found <==> search != [] && Subsequence(search, target)
      ensures found ==> |simple| >= |search| && IsGreedy(simple[..|search|], target, search)
    {
      hide IsGreedy, Subsequence;
      var searchI, targetI := 0, 0;
      ghost var f: seq<nat> := [];
      GreedyNothing(target, search);
      while true
        invariant 0 <= searchI <= |simple| && simple[..searchI] == f
        invariant searchI == |f| && (search == [] ==> f == [])
        invariant search != [] ==> searchI < |search| && IsGreedy(f, target, search)
        invariant search != [] ==> NextStart(f) <= targetI && Absent(search[searchI], target, NextStart(f), targetI)
        invariant 0 <= targetI && (targetI == 0 || targetI < |target|)
        decreases |target| - targetI
      {
        // The first rune of an empty search is undefined, which only an empty target's first rune equals.
        if CodeAt(search, searchI) == CodeAt(target, targetI) {
          if search == [] {
            return false;
          }
          GreedyExtend(f, target, search, targetI);
          simple := Stored(simple, searchI, targetI);
          f := f + [targetI];
          searchI := searchI + 1;
          if searchI == |search| {
            SubsequenceFound(f, target, search);
            return true;
          }
        }
        targetI := targetI + 1;
        if targetI >= |target| {
          if search != [] {
            GreedyStuck(f, target, search);
          }
          return false;
        }
      }
    }

    /** The strict match: consecutive positions and beginnings only, by depth-first search; a position that
        leads nowhere is given up for the next beginning behind it. */
    method StrictMatch(search: seq<int>, codes: seq<int>, ghost begins: set<int>, next: seq<int>)
      returns (found: bool, backtracks: nat)
      requires search != [] && |next| == |codes| && IsNextTable(begins, next)
      requires |simple| >= |search| && IsGreedy(simple[..|search|], codes, search)
      modifies this`strict
      ensures found ==> |strict| >= |search| && IsLeastStrict(strict[..|search|], codes, search, begins)
      ensures !found && backtracks <= MAX_BACKTRACKS ==> forall a :: !IsStrict(a, codes, search, begins)
      ensures backtracks <= MAX_BACKTRACKS + if found then 0 else 1
    {
      hide IsStrict, IsGreedy, IsNext, Candidate, StrictPrefix, IsLeastStrict, IsBeginning;
      var searchI := 0;
      SimpleBounds(simple[..|search|], codes, search);
      assert simple[..|search|][0] == simple[0];
      var targetI := if simple[0] == 0 then 0 else next[simple[0] - 1];
      ghost var k: seq<nat> := [];
      backtracks := 0;
      SearchStarts(simple[..|search|], codes, search, begins, next, targetI);
      if targetI == |codes| {
        SearchFails(codes, search, begins, targetI);
        return false, backtracks;
      }
      while true
        invariant 0 <= searchI == |k| < |search| && searchI <= |strict| && strict[..searchI] == k
        invariant 0 <= targetI <= |codes| && Searching(k, targetI, codes, search, begins)
        invariant backtracks <= MAX_BACKTRACKS
        decreases MAX_BACKTRACKS - backtracks, |codes| - targetI
      {
        if targetI >= |codes| {
          if searchI <= 0 {
            SearchFails(codes, search, begins, targetI);
            return false, backtracks;
          }
          backtracks := backtracks + 1;
          if backtracks > MAX_BACKTRACKS {
            return false, backtracks;
          }
          SearchPops(k, targetI, codes, search, begins, next);
          searchI := searchI - 1;
          var lastMatch := strict[searchI];
          assert strict[..searchI + 1][searchI] == k[searchI];
          targetI := next[lastMatch];
          k := k[..searchI];
        } else {
          if search[searchI] == codes[targetI] {
            SearchPushes(k, targetI, codes, search, begins);
            strict := Stored(strict, searchI, targetI);
            k := k + [targetI];
            searchI := searchI + 1;
            if searchI == |search| {
              return true, backtracks;
            }
            targetI := targetI + 1;
          } else {
            SearchSkips(k, targetI, codes, search, begins, next);
            targetI := next[targetI];
          }
        }
      }
    }

    /** Overwrites the simple match by a whole one. */
    method WriteWhole(at: nat, n: nat)
      requires n <= |simple|
      modifies this`simple
      ensures n <= |simple| && simple[..n] == Consecutive(at, n)
    {
      for i := 0 to n
        invariant |simple| == old(|simple|) && forall k :: 0 <= k < i ==> simple[k] == at + k
      {
        simple := simple[i := at + i];
      }
    }

    /** `algorithm`: no match unless the search is a subsequence; else the strict search, and the search for the word as
        a whole, which is preferred at a beginning, or if the strict search found nothing. */
    method Algorithm(w: Word, codes: seq<int>, next: seq<int>, ghost begins: set<int>)
      returns (result: Option<Found>, backtracks: nat)
      requires |next| == |codes| && IsNextTable(begins, next)
      modifies this
      ensures IsResult(w, codes, begins, result, backtracks)
    {
      hide IsGreedy, IsLeastStrict, IsStrict, IsAlignment, IsNextTable, Subsequence, IsChosen, IsFirstWhole, FoundWhole,
        HasStrict, Score, BeginsBelow;
      var n := |w.codes|;
      var found := SimpleMatch(w.codes, codes);
      if !found {
        return None, 0;
      }
      ghost var f := simple[..n];
      SimpleBounds(f, codes, w.codes);
      var strictFound;
      strictFound, backtracks := StrictMatch(w.codes, codes, begins, next);
      var at, beginning := LookForWhole(w, codes, next, begins, simple[0], f);
      if beginning || (!strictFound && at >= 0) {
        WriteWhole(at, n);
      }
      var matchesBest := if strictFound && !beginning then strict else simple;
      var score := CalculateScore(matchesBest, n, next, Kind(strictFound, at >= 0, beginning), begins);
      result := Some(Found(matchesBest[..n], score));
      ghost var has := backtracks <= MAX_BACKTRACKS && HasStrict(w.codes, codes, begins);
      if strictFound {
        LeastIsStrict(strict[..n], codes, w.codes, begins);
      } else if backtracks <= MAX_BACKTRACKS {
        NoStrict(w.codes, codes, begins);
      }
      ChosenWhole(w, codes, begins, at, beginning, has, f);
      FoundKind(w, codes, begins, at, beginning, has);
      if strictFound && !beginning {
        ChosenStrict(w, codes, begins, at, strict[..n]);
      }
    }
  }

  // --- Whole words ---

  /** A word to search for. One written with accents is compared without them, but never found as a whole. */
  datatype Word = Word(codes: seq<int>, accented: bool)

  /** Where a word of two characters or more stands as a whole. */
  ghost predicate StandsAt(w: Word, codes: seq<int>, k: int) {
    |w.codes| > 1 && !w.accented && OccursAt(codes, w.codes, k)
  }

  /** `m` is the first whole occurrence, or the first at a beginning. */
  ghost predicate IsFirstWhole(w: Word, codes: seq<int>, begins: set<int>, atBeginning: bool, m: seq<nat>) {
    && m != [] && StandsAt(w, codes, m[0]) && (atBeginning ==> m[0] in begins) && m == Consecutive(m[0], |w.codes|)
    && forall k :: StandsAt(w, codes, k) && (atBeginning ==> k in begins) ==> m[0] <= k
  }

  /** The positions of a match and its score. */
  datatype Found = Found(indexes: seq<nat>, score: real)

  ghost predicate HasStrict(search: seq<int>, codes: seq<int>, begins: set<int>) {
    exists a :: IsStrict(a, codes, search, begins)
  }

  /** The match: the first whole occurrence at a beginning, else the least strict alignment, else the first whole
      occurrence, else the greedy alignment. */
  ghost predicate IsChosen(w: Word, codes: seq<int>, begins: set<int>, strict: bool, m: seq<nat>) {
    if exists k :: StandsAt(w, codes, k) && k in begins then IsFirstWhole(w, codes, begins, true, m)
    else if strict then IsLeastStrict(m, codes, w.codes, begins)
    else if exists k :: StandsAt(w, codes, k) then IsFirstWhole(w, codes, begins, false, m)
    else |m| == |w.codes| && IsGreedy(m, codes, w.codes)
  }

  /** What the score of a match depends on besides its positions. */
  ghost function KindOf(w: Word, codes: seq<int>, begins: set<int>, strict: bool): Kind {
    Kind(strict, exists k :: StandsAt(w, codes, k), exists k :: StandsAt(w, codes, k) && k in begins)
  }

  ghost predicate IsScored(w: Word, codes: seq<int>, begins: set<int>, strict: bool, found: Found) {
    && IsAlignment(found.indexes, codes, w.codes) && IsChosen(w, codes, begins, strict, found.indexes)
    && found.indexes != []
    && found.score == Score(found.indexes, |codes|, |BeginsBelow(begins, |codes|)|, KindOf(w, codes, begins, strict))
  }

  /** A word is found exactly if it is a subsequence, and then at an alignment. Strict alignments are taken into account
      unless the search gave up. */
  ghost predicate IsResult(w: Word, codes: seq<int>, begins: set<int>, result: Option<Found>, backtracks: nat) {
    && (result.Some? <==> w.codes != [] && Subsequence(w.codes, codes))
    && (result.Some? ==>
        IsScored(w, codes, begins, backtracks <= MAX_BACKTRACKS && HasStrict(w.codes, codes, begins), result.value))
  }

  /** The score is never positive, and zero exactly for the word itself. */
  lemma ResultBounds(w: Word, codes: seq<int>, begins: set<int>, result: Option<Found>, backtracks: nat)
    requires IsResult(w, codes, begins, result, backtracks) && result.Some?
    ensures result.value.score <= 0.0 && (result.value.score == 0.0 <==> codes == w.codes)
  {
    hide Score, IsChosen, Subsequence, HasStrict, KindOf;
    ScoreBounds(result.value.indexes, codes, w.codes, |BeginsBelow(begins, |codes|)|,
                KindOf(w, codes, begins, backtracks <= MAX_BACKTRACKS && HasStrict(w.codes, codes, begins)));
  }

  // --- Which match it is ---

  /** A word that stands at the beginning of a word is found there, at the first such place. */
  lemma PrefersWhole(w: Word, codes: seq<int>, begins: set<int>, result: Option<Found>, backtracks: nat, k: nat)
    requires IsResult(w, codes, begins, result, backtracks) && result.Some?
    requires k in begins && |w.codes| > 1 && !w.accented && OccursAt(codes, w.codes, k)
    ensures var m := result.value.indexes;
      m != [] && m == Consecutive(m[0], |w.codes|) && m[0] in begins && OccursAt(codes, w.codes, m[0]) && m[0] <= k
  {
    assert StandsAt(w, codes, k);
  }

  /** Otherwise, unless the search gave up, strict positions are taken if there are any: each at a beginning or directly
      behind the one before it, and the earliest such. */
  lemma PrefersStrict(w: Word, codes: seq<int>, begins: set<int>, result: Option<Found>, backtracks: nat, a: seq<nat>)
    requires IsResult(w, codes, begins, result, backtracks) && result.Some? && backtracks <= 200
    requires forall k :: k in begins && |w.codes| > 1 && !w.accented ==> !OccursAt(codes, w.codes, k)
    requires IsAlignment(a, codes, w.codes)
      && forall i {:trigger a[i]} :: 0 <= i < |a| ==> a[i] in begins || (i > 0 && a[i] == a[i - 1] + 1)
    ensures var m := result.value.indexes;
      && |m| == |a| && (forall i :: 0 <= i < |m| ==> m[i] in begins || (i > 0 && m[i] == m[i - 1] + 1))
      && (a == m || exists l :: 0 <= l < |a| && a[..l] == m[..l] && a[l] > m[l])
  {
    hide Score;
    forall i | 0 <= i < |a| ensures Follows(a, begins, i) {
      assert a[i] in begins || (i > 0 && a[i] == a[i - 1] + 1);
    }
    assert IsStrict(a, codes, w.codes, begins);
    var m := result.value.indexes;
    assert IsLeastStrict(m, codes, w.codes, begins);
    forall i | 0 <= i < |m| ensures m[i] in begins || (i > 0 && m[i] == m[i - 1] + 1) {
      assert Follows(m, begins, i);
    }
  }

  /** Without these the word is taken as a whole if it stands somewhere, and else each position is the first one
      possible. */
  lemma TakesWhatIsLeft(w: Word, codes: seq<int>, begins: set<int>, result: Option<Found>, backtracks: nat)
    requires IsResult(w, codes, begins, result, backtracks) && result.Some?
    requires forall k :: k in begins && |w.codes| > 1 && !w.accented ==> !OccursAt(codes, w.codes, k)
    requires forall a :: IsAlignment(a, codes, w.codes) ==> exists i :: 0 <= i < |a| && !Follows(a, begins, i)
    ensures var m, n := result.value.indexes, |w.codes|;
      && (forall k :: n > 1 && !w.accented && OccursAt(codes, w.codes, k) ==> m == Consecutive(m[0], n) && m[0] <= k)
      && ((forall k :: n > 1 && !w.accented ==> !OccursAt(codes, w.codes, k)) ==>
          forall a, i :: IsAlignment(a, codes, w.codes) && 0 <= i < n ==> m[i] <= a[i])
  {
    hide Score, Follows;
    var m := result.value.indexes;
    assert !HasStrict(w.codes, codes, begins);
    forall k ensures StandsAt(w, codes, k) <==> |w.codes| > 1 && !w.accented && OccursAt(codes, w.codes, k) {
    }
    if forall k :: !StandsAt(w, codes, k) {
      forall a, i | IsAlignment(a, codes, w.codes) && 0 <= i < |w.codes| ensures m[i] <= a[i] {
        GreedyIsLeast(m, codes, w.codes, a, i);
      }
    }
  }

  /** `String.indexOf`: the first occurrence from an index on, or -1. */
  function IndexFrom(t: seq<int>, p: seq<int>, from: nat): (r: int)
    ensures r < 0 ==> r == -1 && forall k :: from <= k ==> !OccursAt(t, p, k)
    ensures r >= 0 ==> r >= from && OccursAt(t, p, r) && forall k :: from <= k < r ==> !OccursAt(t, p, k)
    decreases |t| - from
  {
    if from + |p| > |t| then -1 else if OccursAt(t, p, from) then from else IndexFrom(t, p, from + 1)
  }

  method CompareAt(search: seq<int>, codes: seq<int>, at: nat) returns (equal: bool)
    ensures equal == OccursAt(codes, search, at)
  {
    for i := 0 to |search|
      invariant at + i <= |codes| || i == 0
      invariant forall k :: 0 <= k < i ==> codes[at + k] == search[k]
    {
      if Some(search[i]) != CodeAt(codes, at + i) {
        return false;
      }
    }
    return |search| > 0 || at <= |codes|;
  }

  /** Walks through the beginnings behind a whole occurrence for one where there is another. */
  method BeginningBehind(w: Word, codes: seq<int>, next: seq<int>, ghost begins: set<int>, at: nat)
    returns (found: bool, at': nat)
    requires |next| == |codes| && IsNextTable(begins, next) && StandsAt(w, codes, at) && at !in begins
    requires forall k :: StandsAt(w, codes, k) ==> at <= k
    ensures found <==> exists k :: StandsAt(w, codes, k) && k in begins
    ensures if found then StandsAt(w, codes, at') && at' in begins else at' == at
    ensures found ==> forall k :: StandsAt(w, codes, k) && k in begins ==> at' <= k
  {
    var i := 0;
    while i < |next|
      invariant 0 <= i <= |next| && (i == |next| || i in begins)
      invariant forall k :: StandsAt(w, codes, k) && k in begins ==> i <= k
      decreases |next| - i
    {
      if i > at {
        var here := CompareAt(w.codes, codes, i);
        if here {
          return true, i;
        }
      }
      assert IsNext(begins, |next|, i, next[i]);
      i := next[i];
    }
    return false, at;
  }

  /** The test for a beginning: the table leads there from the place before. */
  lemma BeginningIff(begins: set<int>, next: seq<int>, at: nat)
    requires IsNextTable(begins, next) && at < |next|
    ensures at in begins <==> at == 0 || next[at - 1] == at
  {
  }

  /** Looking behind the start of the greedy match misses no occurrence. */
  lemma WholeBehindGreedy(f: seq<nat>, codes: seq<int>, w: Word, at: int)
    requires |f| == |w.codes| > 0 && IsGreedy(f, codes, w.codes)
    requires at == if |w.codes| <= 1 || w.accented then -1 else IndexFrom(codes, w.codes, f[0])
    ensures at < 0 ==> forall k :: !StandsAt(w, codes, k)
    ensures at >= 0 ==> at < |codes| && StandsAt(w, codes, at) && forall k :: StandsAt(w, codes, k) ==> at <= k
  {
    forall k | StandsAt(w, codes, k)
      ensures f[0] <= k
    {
      OccurrenceAligns(codes, w.codes, k);
      GreedyIsLeast(f, codes, w.codes, Consecutive(k, |w.codes|), 0);
    }
  }

  /** What the search for the word as a whole finds: an occurrence at a beginning if there is one, and the first
      such. */
  ghost predicate FoundWhole(w: Word, codes: seq<int>, begins: set<int>, at: int, beginning: bool) {
    && (at < 0 ==> !beginning && forall k :: !StandsAt(w, codes, k))
    && (at >= 0 ==> StandsAt(w, codes, at))
    && (beginning ==> at in begins)
    && (forall k :: StandsAt(w, codes, k) && (beginning ==> k in begins) ==> at <= k)
    && (!beginning ==> forall k :: StandsAt(w, codes, k) ==> k !in begins)
  }

  method LookForWhole(w: Word, codes: seq<int>, next: seq<int>, ghost begins: set<int>, first: nat, ghost f: seq<nat>)
    returns (at: int, beginning: bool)
    requires |next| == |codes| && IsNextTable(begins, next)
    requires |f| == |w.codes| > 0 && IsGreedy(f, codes, w.codes) && f[0] == first
    ensures FoundWhole(w, codes, begins, at, beginning) && (beginning ==> at >= 0)
  {
    hide IsGreedy, IsNextTable;
    at := if |w.codes| <= 1 || w.accented then -1 else IndexFrom(codes, w.codes, first);
    beginning := false;
    WholeBehindGreedy(f, codes, w, at);
    if at >= 0 {
      beginning := at == 0 || next[at - 1] == at;
      BeginningIff(begins, next, at);
      if !beginning {
        beginning, at := BeginningBehind(w, codes, next, begins, at);
      }
    }
  }

  /** The simple match stands, or is overwritten by the whole one. */
  lemma ChosenWhole(w: Word, codes: seq<int>, begins: set<int>, at: int, beginning: bool, strict: bool, f: seq<nat>)
    requires FoundWhole(w, codes, begins, at, beginning) && |f| == |w.codes| > 0 && IsGreedy(f, codes, w.codes)
    ensures beginning || (!strict && at >= 0) ==>
      var m := Consecutive(at, |w.codes|); IsAlignment(m, codes, w.codes) && IsChosen(w, codes, begins, strict, m)
    ensures !beginning && !strict && at < 0 ==> IsAlignment(f, codes, w.codes) && IsChosen(w, codes, begins, strict, f)
  {
    hide IsLeastStrict;
    if at >= 0 {
      OccurrenceAligns(codes, w.codes, at);
    }
  }

  lemma FoundKind(w: Word, codes: seq<int>, begins: set<int>, at: int, beginning: bool, strict: bool)
    requires FoundWhole(w, codes, begins, at, beginning) && (beginning ==> at >= 0)
    ensures KindOf(w, codes, begins, strict) == Kind(strict, at >= 0, beginning)
  {
  }

  lemma ChosenStrict(w: Word, codes: seq<int>, begins: set<int>, at: int, m: seq<nat>)
    requires FoundWhole(w, codes, begins, at, false) && IsLeastStrict(m, codes, w.codes, begins)
    ensures IsChosen(w, codes, begins, true, m)
  {
  }

  lemma NoStrict(search: seq<int>, codes: seq<int>, begins: set<int>)
    requires forall a :: !IsStrict(a, codes, search, begins)
    ensures !HasStrict(search, codes, begins)
  {
  }

  lemma LeastIsStrict(m: seq<nat>, codes: seq<int>, search: seq<int>, begins: set<int>)
    requires IsLeastStrict(m, codes, search, begins)
    ensures IsAlignment(m, codes, search) && HasStrict(search, codes, begins)
  {
  }

  // --- What the strict search looks for ---

  /** Position `i` of the alignment is a beginning or directly follows the position before it. */
  ghost predicate Follows(a: seq<nat>, begins: set<int>, i: int)
    requires 0 <= i < |a|
  {
    a[i] in begins || (i > 0 && a[i] == a[i - 1] + 1)
  }

  ghost predicate IsStrict(a: seq<nat>, codes: seq<int>, search: seq<int>, begins: set<int>) {
    IsAlignment(a, codes, search) && forall i :: 0 <= i < |a| ==> Follows(a, begins, i)
  }

  /** `a` comes after `m` in the order of the search. */
  ghost predicate ComesAfter(a: seq<nat>, m: seq<nat>) {
    exists l :: 0 <= l < |a| && l < |m| && a[..l] == m[..l] && a[l] > m[l]
  }

  /** A strict alignment that no other one precedes. */
  ghost predicate IsLeastStrict(m: seq<nat>, codes: seq<int>, search: seq<int>, begins: set<int>) {
    && IsStrict(m, codes, search, begins)
    && forall a :: IsStrict(a, codes, search, begins) ==> a == m || ComesAfter(a, m)
  }

  /** The stack of the search: a strict alignment of the first characters. */
  ghost predicate StrictPrefix(k: seq<nat>, codes: seq<int>, search: seq<int>, begins: set<int>) {
    && |k| <= |search| && Increasing(k)
    && forall i :: 0 <= i < |k| ==> k[i] < |codes| && codes[k[i]] == search[i] && Follows(k, begins, i)
  }

  /** A place the next character may be looked for: behind the stack, at a beginning, directly behind the last
      match, or at the end. */
  ghost predicate Candidate(k: seq<nat>, t: int, length: int, begins: set<int>) {
    && NextStart(k) <= t <= length
    && (t == length || t in begins || (k != [] && t == NextStart(k)))
  }

  /** `a` has not been passed by a search that has the stack `k` and goes on at `t`. */
  ghost predicate Ahead(a: seq<nat>, k: seq<nat>, t: int) {
    ComesAfter(a, k) || (|k| < |a| && a[..|k|] == k && a[|k|] >= t)
  }

  /** The invariant of the search: its stack is sound, and every strict alignment is still ahead. */
  ghost predicate Searching(k: seq<nat>, t: int, codes: seq<int>, search: seq<int>, begins: set<int>) {
    && StrictPrefix(k, codes, search, begins) && Candidate(k, t, |codes|, begins)
    && forall a :: IsStrict(a, codes, search, begins) ==> Ahead(a, k, t)
  }

  lemma SimpleBounds(f: seq<nat>, codes: seq<int>, search: seq<int>)
    requires search != [] && |f| == |search| && IsGreedy(f, codes, search)
    ensures f[0] < |codes|
  {
  }

  lemma SearchStarts(f: seq<nat>, codes: seq<int>, search: seq<int>, begins: set<int>, next: seq<int>, t: int)
    requires search != [] && |f| == |search| && IsGreedy(f, codes, search)
    requires |next| == |codes| && IsNextTable(begins, next) && t == if f[0] == 0 then 0 else next[f[0] - 1]
    ensures 0 <= t <= |codes| && Searching([], t, codes, search, begins)
  {
    assert f[0] > 0 ==> IsNext(begins, |codes|, f[0] - 1, next[f[0] - 1]);
    forall a | IsStrict(a, codes, search, begins)
      ensures Ahead(a, [], t)
    {
      GreedyIsLeast(f, codes, search, a, 0);
      assert Follows(a, begins, 0);
      assert a[..0] == [];
    }
  }

  lemma SearchFails(codes: seq<int>, search: seq<int>, begins: set<int>, t: int)
    requires search != [] && Searching([], t, codes, search, begins) && t >= |codes|
    ensures forall a :: !IsStrict(a, codes, search, begins)
  {
  }

  lemma SearchPushes(k: seq<nat>, t: nat, codes: seq<int>, search: seq<int>, begins: set<int>)
    requires |k| < |search| && Searching(k, t, codes, search, begins) && t < |codes| && codes[t] == search[|k|]
    ensures |k| + 1 < |search| ==> Searching(k + [t], t + 1, codes, search, begins)
    ensures |k| + 1 == |search| ==> IsLeastStrict(k + [t], codes, search, begins)
  {
    hide ComesAfter, Follows;
    var m := k + [t];
    PrefixPushes(k, t, codes, search, begins);
    forall a | IsStrict(a, codes, search, begins)
      ensures |m| < |search| ==> Ahead(a, m, t + 1)
      ensures |m| == |search| ==> a == m || ComesAfter(a, m)
    {
      AheadAfterPush(a, k, t);
    }
  }

  lemma PrefixPushes(k: seq<nat>, t: nat, codes: seq<int>, search: seq<int>, begins: set<int>)
    requires |k| < |search| && StrictPrefix(k, codes, search, begins) && Candidate(k, t, |codes|, begins)
    requires t < |codes| && codes[t] == search[|k|]
    ensures StrictPrefix(k + [t], codes, search, begins)
    ensures Candidate(k + [t], t + 1, |codes|, begins)
    ensures |k| + 1 == |search| ==> IsStrict(k + [t], codes, search, begins)
  {
  }

  lemma AheadAfterPush(a: seq<nat>, k: seq<nat>, t: nat)
    requires Increasing(a) && Ahead(a, k, t) && |k| < |a|
    ensures ComesAfter(a, k + [t]) || (a[..|k| + 1] == k + [t] && (|k| + 1 < |a| ==> a[|k| + 1] >= t + 1))
  {
  }

  lemma SearchSkips(k: seq<nat>, t: nat, codes: seq<int>, search: seq<int>, begins: set<int>, next: seq<int>)
    requires |k| < |search| && Searching(k, t, codes, search, begins) && t < |codes| && codes[t] != search[|k|]
    requires |next| == |codes| && IsNextTable(begins, next)
    ensures t < next[t] <= |codes| && Searching(k, next[t], codes, search, begins)
  {
    var n := next[t];
    assert IsNext(begins, |codes|, t, n);
    forall a | IsStrict(a, codes, search, begins)
      ensures Ahead(a, k, n)
    {
      if !ComesAfter(a, k) {
        var x := a[|k|];
        assert Follows(a, begins, |k|) && x != t;
        assert k != [] ==> a[..|k|][|k| - 1] == k[|k| - 1];
        assert !(t < x < n);
      }
    }
  }

  lemma SearchPops(k: seq<nat>, t: nat, codes: seq<int>, search: seq<int>, begins: set<int>, next: seq<int>)
    requires 0 < |k| < |search| && Searching(k, t, codes, search, begins) && t >= |codes|
    requires |next| == |codes| && IsNextTable(begins, next)
    ensures k[|k| - 1] < |codes| && 0 <= next[k[|k| - 1]] <= |codes|
    ensures Searching(k[..|k| - 1], next[k[|k| - 1]], codes, search, begins)
  {
    var e := |k| - 1;
    var r, last := k[..e], k[e];
    var n := next[last];
    assert IsNext(begins, |codes|, last, n);
    assert StrictPrefix(r, codes, search, begins) by {
      assert forall i :: 0 <= i < e ==> Follows(k, begins, i) ==> Follows(r, begins, i);
    }
    forall a | IsStrict(a, codes, search, begins)
      ensures Ahead(a, r, n)
    {
      AheadAfterPop(a, k, t, n, codes, search, begins);
    }
  }

  lemma AheadAfterPop(a: seq<nat>, k: seq<nat>, t: nat, n: int, codes: seq<int>, search: seq<int>, begins: set<int>)
    requires 0 < |k| < |search| && IsStrict(a, codes, search, begins) && Ahead(a, k, t) && t >= |codes|
    requires IsNext(begins, |codes|, k[|k| - 1], n) && Increasing(k)
    ensures Ahead(a, k[..|k| - 1], n)
  {
    hide IsBeginning;
    var e := |k| - 1;
    var r, last := k[..e], k[e];
    assert a[|k|] < |codes|;
    var l :| 0 <= l < |a| && l < |k| && a[..l] == k[..l] && a[l] > k[l];
    if l < e {
      assert r[..l] == k[..l] && r[l] == k[l];
    } else {
      assert Follows(a, begins, e);
      assert e > 0 ==> a[..e][e - 1] == k[..e][e - 1] && k[e - 1] < k[e];
      assert !(last < a[e] < n);
    }
  }

  lemma SubsequenceFound(f: seq<nat>, t: seq<int>, p: seq<int>)
    requires IsGreedy(f, t, p) && |f| == |p|
    ensures Subsequence(p, t)
  {
    assert IsAlignment(f, t, p);
  }
}
