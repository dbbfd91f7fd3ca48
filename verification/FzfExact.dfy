/** `exactMatchNaive`: a substring search whose index moves back after every attempt
    (src/utils/scripts/fzf.js:730-795). */
module FzfExact {
  import opened FzfRunes
  import opened Alignments
  import opened FzfMatchV1
  import FzfPrefilter
  import FzfScore

  /** Where in the text a window of the scan begins. */
  function StartOf(w: int, n: int, m: int, forward: bool): int {
    if forward then w else n - w - m
  }

  /** The bonus a window of the scan is judged by: that of its first text position. */
  function WindowBonus(u: Unicode, text: seq<Rune>, w: int, m: nat, forward: bool): (b: int)
    ensures 0 <= b <= BONUS_BOUNDARY
  {
    var s := StartOf(w, |text|, m, forward);
    if 0 <= s < |text| then BonusAt(u, text, s) else 0
  }

  /** The best of the windows before `w`: the first with the highest bonus, or none. */
  ghost predicate BestWindow(u: Unicode, text: seq<Rune>, st: seq<int>, sp: seq<int>, forward: bool, w: int, best: int,
                             bonus: int) {
    if bonus < 0 then forall k :: 0 <= k < w ==> !OccursAt(st, sp, k)
    else
      && 0 <= best < w && OccursAt(st, sp, best) && bonus == WindowBonus(u, text, best, |sp|, forward)
      && forall k :: 0 <= k < w && OccursAt(st, sp, k) ==>
           && WindowBonus(u, text, k, |sp|, forward) <= bonus
           && (k < best ==> WindowBonus(u, text, k, |sp|, forward) < bonus)
  }

  /** What the search returns for a nonempty pattern: no match exactly when the pattern does not occur, else the
      occurrence with the highest boundary bonus, the first such in scan direction. */
  ghost predicate ExactSpec(u: Unicode, cs: bool, nz: bool, forward: bool, text: seq<Rune>, pattern: seq<Rune>,
                            r: MatchResult)
    requires pattern != []
  {
    var t, m := FoldTextV1(u, cs, nz, text), |pattern|;
    if forall k :: !OccursAt(t, pattern, k) then r == MatchResult(-1, -1, 0)
    else
      && OccursAt(t, pattern, r.start) && r.end == r.start + m
      && r.score == FzfScore.TallyTo(u, text, t, pattern, r.start, r.end).score <= ScoreCap(m)
      && forall k :: OccursAt(t, pattern, k) ==>
           var (here, there) := (BonusAt(u, text, r.start), BonusAt(u, text, k));
           there < here || (there == here && if forward then r.start <= k else k <= r.start)
  }

  /** Occurrences in scan order are the text's, mirrored. */
  lemma FacingOccurs(t: seq<int>, p: seq<int>, forward: bool, w: int)
    requires p != []
    ensures OccursAt(Facing(t, forward), Facing(p, forward), w) <==> OccursAt(t, p, StartOf(w, |t|, |p|, forward))
  {
    if !forward {
      var rt, rp, s := Facing(t, false), Facing(p, false), StartOf(w, |t|, |p|, false);
      if OccursAt(rt, rp, w) {
        forall i | 0 <= i < |p|
          ensures t[s + i] == p[i]
        {
          assert rt[w + (|p| - 1 - i)] == rp[|p| - 1 - i];
        }
      }
      if OccursAt(t, p, s) {
        forall i | 0 <= i < |p|
          ensures rt[w + i] == rp[i]
        {
          assert t[s + (|p| - 1 - i)] == p[|p| - 1 - i];
        }
      }
    }
  }

  /** Window `w` judged: it occurs, and its bonus either beats the best so far or not. */
  lemma WindowOccurs(u: Unicode, text: seq<Rune>, st: seq<int>, sp: seq<int>, forward: bool, w: int, best: int,
                     bonus: int)
    requires 0 <= w && OccursAt(st, sp, w) && BestWindow(u, text, st, sp, forward, w, best, bonus)
    ensures var here := WindowBonus(u, text, w, |sp|, forward);
      && (here > bonus ==> BestWindow(u, text, st, sp, forward, w + 1, w, here))
      && (here <= bonus ==> BestWindow(u, text, st, sp, forward, w + 1, best, bonus))
  {
  }

  /** Window `w` does not occur. */
  lemma WindowFails(u: Unicode, text: seq<Rune>, st: seq<int>, sp: seq<int>, forward: bool, w: int, best: int,
                    bonus: int)
    requires 0 <= w && !OccursAt(st, sp, w) && BestWindow(u, text, st, sp, forward, w, best, bonus)
    ensures BestWindow(u, text, st, sp, forward, w + 1, best, bonus)
  {
  }

  /** No bonus beats a boundary, so the windows behind need not be tried. */
  lemma BoundaryEnds(u: Unicode, text: seq<Rune>, st: seq<int>, sp: seq<int>, forward: bool, w: int, best: int,
                     bonus: int, all: int)
    requires BestWindow(u, text, st, sp, forward, w, best, bonus) && bonus == BONUS_BOUNDARY && w <= all
    ensures BestWindow(u, text, st, sp, forward, all, best, bonus)
  {
  }

  /** Windows that no longer fit do not occur. */
  lemma RestDoesNotFit(u: Unicode, text: seq<Rune>, st: seq<int>, sp: seq<int>, forward: bool, w: int, best: int,
                       bonus: int, all: int)
    requires BestWindow(u, text, st, sp, forward, w, best, bonus) && w <= all && w + |sp| > |st|
    ensures BestWindow(u, text, st, sp, forward, all, best, bonus)
  {
  }

  /** The loop: it tries every window in scan order, moving its index back to just behind the last start. */
  method SearchWindows(u: Unicode, cs: bool, nz: bool, forward: bool, text: seq<Rune>, pattern: seq<Rune>,
                       ghost st: seq<int>, ghost sp: seq<int>)
    returns (bestPos: int, ghost bestBonus: int)
    requires pattern != [] && Shows(st, u, cs, nz, text, forward) && PatternShown(sp, pattern, forward)
    ensures bestPos < 0 <==> bestBonus < 0
    ensures bestPos >= 0 ==> |pattern| - 1 <= bestPos < |text|
    ensures BestWindow(u, text, st, sp, forward, |text|, bestPos - |pattern| + 1, bestBonus)
  {
    hide FoldV1, BonusAt, BestWindow, Stands, OccursAt;
    var lenRunes, lenPattern := |text|, |pattern|;
    var pidx, bonus, bestSoFar, index := 0, 0, -1, 0;
    bestPos := -1;
    NoWindowYet(u, text, st, sp, forward, bestPos - lenPattern + 1);
    NothingStands(st, sp, 0);
    while index < lenRunes
      invariant 0 <= pidx < lenPattern && 0 <= index - pidx <= index <= lenRunes
      invariant Stands(st, sp, index - pidx, pidx)
      invariant bestSoFar < BONUS_BOUNDARY && (bestPos < 0 <==> bestSoFar < 0)
        && (bestPos >= 0 ==> lenPattern - 1 <= bestPos < lenRunes)
      invariant BestWindow(u, text, st, sp, forward, index - pidx, bestPos - lenPattern + 1, bestSoFar)
      invariant forward && pidx > 0 ==> bonus == WindowBonus(u, text, index - pidx, lenPattern, forward)
      decreases lenRunes - (index - pidx), lenPattern - pidx
    {
      ghost var w := index - pidx;
      assert ShowsAt(st, u, cs, nz, text, forward, index) && PatternAt(sp, pattern, forward, pidx);
      StandsOneMore(st, sp, w, pidx);
      NothingStands(st, sp, w + 1);
      var at := IndexAt(index, lenRunes, forward);
      var rune := FoldV1(u, cs, nz, text[at]);
      var pAt := IndexAt(pidx, lenPattern, forward);
      if pattern[pAt] == rune {
        if pAt == 0 {
          bonus := BonusAt(u, text, at);
        }
        pidx := pidx + 1;
        if pidx == lenPattern {
          assert OccursAt(st, sp, w) && bonus == WindowBonus(u, text, w, lenPattern, forward);
          WindowOccurs(u, text, st, sp, forward, w, bestPos - lenPattern + 1, bestSoFar);
          if bonus > bestSoFar {
            bestPos, bestSoFar := index, bonus;
          }
          if bonus == BONUS_BOUNDARY {
            BoundaryEnds(u, text, st, sp, forward, w + 1, bestPos - lenPattern + 1, bestSoFar, lenRunes);
            return bestPos, bestSoFar;
          }
          index := index - (pidx - 1);
          pidx, bonus := 0, 0;
        }
      } else {
        WindowFails(u, text, st, sp, forward, w, bestPos - lenPattern + 1, bestSoFar);
        index := index - pidx;
        pidx, bonus := 0, 0;
      }
      index := index + 1;
    }
    RestDoesNotFit(u, text, st, sp, forward, index - pidx, bestPos - lenPattern + 1, bestSoFar, lenRunes);
    return bestPos, bestSoFar;
  }

  /** The first `n` runes of the pattern stand at `w`. */
  ghost predicate Stands(st: seq<int>, sp: seq<int>, w: int, n: int) {
    0 <= w && 0 <= n <= |sp| && w + n <= |st| && forall i :: 0 <= i < n ==> st[w + i] == sp[i]
  }

  lemma NothingStands(st: seq<int>, sp: seq<int>, w: int)
    requires 0 <= w <= |st|
    ensures Stands(st, sp, w, 0)
  {
  }

  /** One rune more: the pattern stands there, or it does not. */
  lemma StandsOneMore(st: seq<int>, sp: seq<int>, w: int, n: int)
    requires Stands(st, sp, w, n) && n < |sp| && w + n < |st|
    ensures st[w + n] == sp[n] ==> Stands(st, sp, w, n + 1) && (n + 1 == |sp| ==> OccursAt(st, sp, w))
    ensures st[w + n] != sp[n] ==> !OccursAt(st, sp, w)
  {
  }

  lemma NoWindowYet(u: Unicode, text: seq<Rune>, st: seq<int>, sp: seq<int>, forward: bool, best: int)
    ensures BestWindow(u, text, st, sp, forward, 0, best, -1)
  {
  }

  /** From the best window of the scan to the result in the text's own direction. */
  lemma BestOccurrence(u: Unicode, cs: bool, nz: bool, forward: bool, text: seq<Rune>, pattern: seq<Rune>, best: int,
                       bonus: int)
    requires pattern != []
    requires BestWindow(u, text, Facing(FoldTextV1(u, cs, nz, text), forward), Facing(pattern, forward), forward,
                        |text|, best, bonus)
    ensures var t, m := FoldTextV1(u, cs, nz, text), |pattern|;
      if bonus < 0 then forall k :: !OccursAt(t, pattern, k)
      else
        var s := StartOf(best, |text|, m, forward);
        && OccursAt(t, pattern, s)
        && forall k :: OccursAt(t, pattern, k) ==>
             var (here, there) := (BonusAt(u, text, s), BonusAt(u, text, k));
             there < here || (there == here && if forward then s <= k else k <= s)
  {
    hide FoldTextV1, Facing, OccursAt, BonusAt;
    var t, m, n := FoldTextV1(u, cs, nz, text), |pattern|, |text|;
    FacingOccurs(t, pattern, forward, best);
    forall k | OccursAt(t, pattern, k)
      ensures 0 <= StartOf(k, n, m, forward) < n && 0 <= k < n
      ensures OccursAt(Facing(t, forward), Facing(pattern, forward), StartOf(k, n, m, forward))
    {
      OccursInside(t, pattern, k);
      FacingOccurs(t, pattern, forward, StartOf(k, n, m, forward));
    }
    if bonus >= 0 {
      OccursInside(t, pattern, StartOf(best, n, m, forward));
    }
  }

  lemma OccursInside(t: seq<int>, p: seq<int>, k: int)
    requires OccursAt(t, p, k) && p != []
    ensures 0 <= k && k + |p| <= |t|
  {
  }

  lemma NoSubsequenceNoOccurrence(t: seq<int>, p: seq<int>)
    requires p != [] && !Subsequence(p, t)
    ensures forall k :: !OccursAt(t, p, k)
  {
    forall k
      ensures !OccursAt(t, p, k)
    {
      if OccursAt(t, p, k) {
        OccurrenceAligns(t, p, k);
      }
    }
  }

  method ExactMatchNaive(u: Unicode, cs: bool, nz: bool, forward: bool, text: seq<Rune>, pattern: seq<Rune>)
    returns (r: MatchResult)
    ensures pattern == [] ==> r == MatchResult(0, 0, 0)
    ensures pattern != [] ==> ExactSpec(u, cs, nz, forward, text, pattern, r)
  {
    hide FoldTextV1, Facing, FzfScore.TallyTo, Shows, PatternShown, Subsequence, BestWindow, BonusAt;
    if pattern == [] {
      return MatchResult(0, 0, 0);
    }
    var lenRunes, lenPattern := |text|, |pattern|;
    ghost var t := FoldTextV1(u, cs, nz, text);
    if lenRunes < lenPattern {
      return MatchResult(-1, -1, 0);
    }
    var idx := FzfPrefilter.AsciiFuzzyIndex(text, pattern, cs);
    PrefilterAdmits(u, cs, nz, text, pattern, idx);
    if idx < 0 {
      NoSubsequenceNoOccurrence(t, pattern);
      return MatchResult(-1, -1, 0);
    }
    FacingShows(u, cs, nz, text, pattern, forward);
    var bestPos, bestBonus :=
      SearchWindows(u, cs, nz, forward, text, pattern, Facing(t, forward), Facing(pattern, forward));
    BestOccurrence(u, cs, nz, forward, text, pattern, bestPos - lenPattern + 1, bestBonus);
    if bestPos >= 0 {
      var sidx, eidx;
      if forward {
        sidx, eidx := bestPos - lenPattern + 1, bestPos + 1;
      } else {
        sidx, eidx := lenRunes - (bestPos + 1), lenRunes - (bestPos - lenPattern + 1);
      }
      FzfScore.TallyCapped(u, text, t, pattern, sidx, eidx);
      OccurrenceScored(u, text, t, pattern, sidx, eidx);
      var score, _ := FzfScore.CalculateScore(u, cs, nz, text, pattern, sidx, eidx, false);
      return MatchResult(sidx, eidx, score);
    }
    return MatchResult(-1, -1, 0);
  }

  lemma OccurrenceScored(u: Unicode, text: seq<Rune>, t: seq<Rune>, p: seq<Rune>, start: nat, end: nat)
    requires p != [] && |t| == |text| && OccursAt(t, p, start) && end == start + |p|
    ensures FzfScore.TallyTo(u, text, t, p, start, end).score <= ScoreCap(|p|)
  {
    hide FzfScore.TallyTo;
    OccurrenceAligns(t, p, start);
    FzfScore.TallyFindsAll(u, text, t, p, start, end, Consecutive(start, |p|));
    FzfScore.TallyCapped(u, text, t, p, start, end);
  }
}
