/** `calculateScore`: the score of a match window and the positions it highlights
    (src/utils/scripts/fzf.js:600-655). */
module FzfScore {
  import opened Wrappers
  import opened FzfRunes
  import opened Alignments
  import FzfBacktrace

  /** The running totals of the scoring loop; `found` lists the positions matched so far. */
  datatype Tally = Tally(score: int, inGap: bool, run: nat, firstBonus: int, prevClass: CharClass, found: seq<nat>)

  /** What one rune, at position `idx` and of class `kind`, adds to the totals. */
  function Count(tally: Tally, rune: Rune, kind: CharClass, p: seq<Rune>, idx: nat): Tally {
    var n := |tally.found|;
    if n < |p| && rune == p[n] then
      var bonus := BonusFor(tally.prevClass, kind);
      var first := if tally.run == 0 || bonus == BONUS_BOUNDARY then bonus else tally.firstBonus;
      var gained := if tally.run == 0 then bonus else Max(Max(bonus, first), BONUS_CONSECUTIVE);
      Tally(tally.score + SCORE_MATCH + (if n == 0 then 2 * gained else gained), false, tally.run + 1, first, kind,
            tally.found + [idx])
    else
      Tally(tally.score + (if tally.inGap then SCORE_GAP_EXTENSION else SCORE_GAP_START), true, 0, 0, kind, tally.found)
  }

  /** The totals after the positions `[start, to)` of the text, whose folded form is `t`. */
  function TallyTo(u: Unicode, text: seq<Rune>, t: seq<Rune>, p: seq<Rune>, start: nat, upTo: nat): Tally
    requires start <= upTo <= |text| == |t|
    decreases upTo
  {
    if upTo == start then Tally(0, false, 0, 0, ClassBefore(u, text, start), [])
    else Count(TallyTo(u, text, t, p, start, upTo - 1), t[upTo - 1], ClassOf(u, text[upTo - 1]), p, upTo - 1)
  }

  /** The totals never exceed what an exact match of the runes found so far is awarded. */
  lemma {:induction false} TallyCapped(u: Unicode, text: seq<Rune>, t: seq<Rune>, p: seq<Rune>, start: nat, upTo: nat)
    requires start <= upTo <= |text| == |t|
    ensures var y := TallyTo(u, text, t, p, start, upTo);
      && |y.found| <= |p| && 0 <= y.firstBonus <= BONUS_BOUNDARY
      && y.score <= (if y.found == [] then 0 else ScoreCap(|y.found|))
    decreases upTo
  {
    if start < upTo {
      TallyCapped(u, text, t, p, start, upTo - 1);
    }
  }

  // --- The score in plain numbers ---

  /** The bonus of a position. */
  function BonusOf(u: Unicode, text: seq<Rune>, k: nat): int
    requires k < |text|
  {
    BonusFor(ClassBefore(u, text, k), ClassOf(u, text[k]))
  }

  /** A stretch that holds nothing costs 3 points for its first position and one for every further one, or one for each
      if it goes on from a gap. */
  lemma {:induction false} MissesCost(u: Unicode, text: seq<Rune>, t: seq<Rune>, p: seq<Rune>, start: nat, k: nat,
                                      upTo: nat)
    requires start <= k <= upTo <= |text| == |t|
    requires var found := TallyTo(u, text, t, p, start, k).found; |found| < |p| ==> Absent(p[|found|], t, k, upTo)
    ensures var before, y := TallyTo(u, text, t, p, start, k), TallyTo(u, text, t, p, start, upTo);
      && y.found == before.found
      && before.score - y.score == (if k == upTo then 0 else if before.inGap then upTo - k else 3 + (upTo - k - 1))
      && (k < upTo ==> y.inGap && y.run == 0)
    decreases upTo
  {
    hide BonusFor, ClassOf, ClassBefore, Max;
    if k < upTo {
      MissesCost(u, text, t, p, start, k, upTo - 1);
    }
  }

  /** The bonus of a run of positions: that of its last boundary, or else of its first position. */
  function RunBonus(u: Unicode, text: seq<Rune>, first: nat, upTo: nat): int
    requires first < upTo <= |text|
  {
    if upTo == first + 1 then BonusOf(u, text, first)
    else if BonusOf(u, text, upTo - 1) == 8 then 8 else RunBonus(u, text, first, upTo - 1)
  }

  /** What the totals say of the positions before: which ones form a run at the end, or that the last one was a miss. */
  ghost predicate HasRun(u: Unicode, text: seq<Rune>, y: Tally, start: nat, upTo: nat)
    requires start <= upTo <= |text|
  {
    && y.run <= upTo - start && y.run <= |y.found| && (y.inGap ==> y.run == 0)
    && y.prevClass == ClassBefore(u, text, upTo)
    && y.found[|y.found| - y.run..] == Consecutive(upTo - y.run, y.run)
    && (y.run == 0 && y.found != [] ==> y.found[|y.found| - 1] < upTo - 1)
    && (y.run > 0 ==> y.firstBonus == RunBonus(u, text, upTo - y.run, upTo))
  }

  lemma {:induction false} TallyHasRun(u: Unicode, text: seq<Rune>, t: seq<Rune>, p: seq<Rune>, start: nat, upTo: nat)
    requires start <= upTo <= |text| == |t|
    ensures HasRun(u, text, TallyTo(u, text, t, p, start, upTo), start, upTo)
    decreases upTo
  {
    hide BonusFor, ClassOf, Max, HasRun;
    if start == upTo {
      NoRun(u, text, t, p, start);
    } else {
      TallyHasRun(u, text, t, p, start, upTo - 1);
      RunGrows(u, text, TallyTo(u, text, t, p, start, upTo - 1), t[upTo - 1], p, start, upTo);
    }
  }

  lemma NoRun(u: Unicode, text: seq<Rune>, t: seq<Rune>, p: seq<Rune>, start: nat)
    requires start <= |text| == |t|
    ensures HasRun(u, text, TallyTo(u, text, t, p, start, start), start, start)
  {
  }

  lemma RunGrows(u: Unicode, text: seq<Rune>, before: Tally, rune: Rune, p: seq<Rune>, start: nat, upTo: nat)
    requires start < upTo <= |text| && HasRun(u, text, before, start, upTo - 1)
    ensures HasRun(u, text, Count(before, rune, ClassOf(u, text[upTo - 1]), p, upTo - 1), start, upTo)
  {
    hide BonusFor, ClassOf, Max, HasRun, Count;
    if |before.found| < |p| && rune == p[|before.found|] {
      HitLengthens(u, text, before, rune, p, start, upTo);
    } else {
      MissEnds(u, text, before, rune, p, start, upTo);
    }
  }

  lemma HitLengthens(u: Unicode, text: seq<Rune>, before: Tally, rune: Rune, p: seq<Rune>, start: nat, upTo: nat)
    requires start < upTo <= |text| && HasRun(u, text, before, start, upTo - 1)
    requires |before.found| < |p| && rune == p[|before.found|]
    ensures HasRun(u, text, Count(before, rune, ClassOf(u, text[upTo - 1]), p, upTo - 1), start, upTo)
  {
    hide BonusFor, ClassOf, Max;
    var y := Count(before, rune, ClassOf(u, text[upTo - 1]), p, upTo - 1);
    assert y.found[|y.found| - y.run..] == before.found[|before.found| - before.run..] + [upTo - 1];
  }

  lemma MissEnds(u: Unicode, text: seq<Rune>, before: Tally, rune: Rune, p: seq<Rune>, start: nat, upTo: nat)
    requires start < upTo <= |text| && HasRun(u, text, before, start, upTo - 1)
    requires |before.found| < |p| ==> rune != p[|before.found|]
    ensures HasRun(u, text, Count(before, rune, ClassOf(u, text[upTo - 1]), p, upTo - 1), start, upTo)
  {
    hide BonusFor, ClassOf, Max, RunBonus;
    if before.run > 0 {
      assert before.found[|before.found| - before.run..][before.run - 1] == upTo - 2;
    }
  }

  /** A rune that is found brings 16 points and its bonus, twice for the first one; directly behind another one that
      is at least 4 and at least the bonus of the run. */
  lemma HitGains(u: Unicode, text: seq<Rune>, t: seq<Rune>, p: seq<Rune>, start: nat, k: nat)
    requires start <= k < |text| == |t|
    requires var found := TallyTo(u, text, t, p, start, k).found; |found| < |p| && t[k] == p[|found|]
    ensures var before, y := TallyTo(u, text, t, p, start, k), TallyTo(u, text, t, p, start, k + 1);
      var bonus, n := BonusOf(u, text, k), |before.found|;
      && y.found == before.found + [k] && !y.inGap && before.run <= k
      && y.score == before.score + 16 +
           if n == 0 then 2 * bonus
           else if before.found[n - 1] < k - 1 then bonus
           else
             var run := RunBonus(u, text, k - before.run, k + 1);
             if bonus >= run && bonus >= 4 then bonus else if run >= 4 then run else 4
  {
    hide BonusFor, ClassOf;
    TallyHasRun(u, text, t, p, start, k);
    TallyHasRun(u, text, t, p, start, k + 1);
  }

  ghost predicate Within(a: seq<nat>, low: nat, high: nat) {
    forall i :: 0 <= i < |a| ==> low <= a[i] < high
  }

  /** Positions counted from `start` on. */
  ghost function Offsets(a: seq<nat>, start: nat, high: nat): (f: seq<nat>)
    requires Within(a, start, high)
    ensures |f| == |a| && forall i :: 0 <= i < |a| ==> f[i] == a[i] - start
  {
    if a == [] then [] else Offsets(a[..|a| - 1], start, high) + [a[|a| - 1] - start]
  }

  /** An alignment behind `start` is one of the rest of the text, and back. */
  lemma OffsetsAlign(a: seq<nat>, t: seq<int>, p: seq<int>, start: nat, high: nat)
    requires start <= |t| && Within(a, start, high)
    ensures IsAlignment(a, t, p) <==> IsAlignment(Offsets(a, start, high), t[start..], p)
  {
  }

  lemma {:induction false} FoundBehindStart(u: Unicode, text: seq<Rune>, t: seq<Rune>, p: seq<Rune>, start: nat,
                                            upTo: nat)
    requires start <= upTo <= |text| == |t|
    ensures Within(TallyTo(u, text, t, p, start, upTo).found, start, upTo)
    decreases upTo
  {
    hide BonusFor, ClassOf, ClassBefore, Max;
    if start < upTo {
      FoundBehindStart(u, text, t, p, start, upTo - 1);
    }
  }

  /** The positions found, counted from the start of the window. */
  ghost function FoundOffsets(u: Unicode, text: seq<Rune>, t: seq<Rune>, p: seq<Rune>, start: nat,
                              upTo: nat): (f: seq<nat>)
    requires start <= upTo <= |text| == |t|
  {
    var found := TallyTo(u, text, t, p, start, upTo).found;
    FoundBehindStart(u, text, t, p, start, upTo);
    Offsets(found, start, upTo)
  }

  lemma OffsetsGrow(u: Unicode, text: seq<Rune>, t: seq<Rune>, p: seq<Rune>, start: nat, upTo: nat)
    requires start <= upTo < |text| == |t|
    ensures var g := FoundOffsets(u, text, t, p, start, upTo);
      FoundOffsets(u, text, t, p, start, upTo + 1) ==
        if |g| < |p| && t[upTo] == p[|g|] then g + [upTo - start] else g
  {
  }

  /** They are greedy: each is the first possible one. */
  lemma {:induction false} TallyIsGreedy(u: Unicode, text: seq<Rune>, t: seq<Rune>, p: seq<Rune>, start: nat, upTo: nat)
    requires start <= upTo <= |text| == |t|
    ensures var f := FoundOffsets(u, text, t, p, start, upTo);
      && IsGreedy(f, t[start..], p) && NextStart(f) <= upTo - start
      && (|f| < |p| ==> Absent(p[|f|], t[start..], NextStart(f), upTo - start))
    decreases upTo
  {
    hide TallyTo, Offsets, FoundOffsets, IsGreedy;
    if start == upTo {
      FoundNothingYet(u, text, t, p, start);
      GreedyNothing(t[start..], p);
    } else {
      TallyIsGreedy(u, text, t, p, start, upTo - 1);
      OffsetsGrow(u, text, t, p, start, upTo - 1);
      var g := FoundOffsets(u, text, t, p, start, upTo - 1);
      var w, k := t[start..], upTo - 1 - start;
      assert w[k] == t[upTo - 1];
      if |g| < |p| && w[k] == p[|g|] {
        GreedyExtend(g, w, p, k);
      }
    }
  }

  lemma FoundNothingYet(u: Unicode, text: seq<Rune>, t: seq<Rune>, p: seq<Rune>, start: nat)
    requires start <= |text| == |t|
    ensures FoundOffsets(u, text, t, p, start, start) == []
  {
  }

  /** If the window holds an alignment from its first position on, all runes are found in it, the first of
      them at its start. */
  lemma TallyFindsAll(u: Unicode, text: seq<Rune>, t: seq<Rune>, p: seq<Rune>, start: nat, end: nat, a: seq<nat>)
    requires start <= end <= |text| == |t| && p != []
    requires IsAlignment(a, t, p) && a[0] == start && a[|a| - 1] < end
    ensures var found := TallyTo(u, text, t, p, start, end).found;
      IsAlignment(found, t, p) && found[0] == start && found[|p| - 1] <= a[|p| - 1]
  {
    hide TallyTo, Tight;
    var found := TallyTo(u, text, t, p, start, end).found;
    FoundBehindStart(u, text, t, p, start, end);
    TallyIsGreedy(u, text, t, p, start, end);
    assert forall i :: 0 <= i < |a| ==> a[0] <= a[i] <= a[|a| - 1];
    var w, f, b := t[start..], FoundOffsets(u, text, t, p, start, end), Offsets(a, start, end);
    OffsetsAlign(a, t, p, start, end);
    if |f| < |p| {
      GreedyLeavesRoom(f, w, p, b);
    }
    GreedyIsLeast(f, w, p, b, |p| - 1);
    GreedyIsLeast(f, w, p, b, 0);
    OffsetsAlign(found, t, p, start, end);
  }

  method CalculateScore(u: Unicode, cs: bool, nz: bool, text: seq<Rune>, pattern: seq<Rune>, sidx: nat, eidx: nat,
                        withPos: bool)
    returns (score: int, pos: Option<set<nat>>)
    requires sidx <= eidx <= |text|
    ensures var y := TallyTo(u, text, FoldTextV1(u, cs, nz, text), pattern, sidx, eidx);
      score == y.score && pos == if withPos then Some(FzfBacktrace.Elements(y.found)) else None
  {
    hide BonusFor, ClassOf, FoldV1, Max;
    ghost var t := FoldTextV1(u, cs, nz, text);
    var pidx, inGap, consecutive, firstBonus := 0, false, 0, 0;
    score := 0;
    var found: set<nat> := {};
    var prevCharClass := 0;
    if sidx > 0 {
      prevCharClass := ClassOf(u, text[sidx - 1]);
    }
    for idx := sidx to eidx
      invariant var y := TallyTo(u, text, t, pattern, sidx, idx);
        && pidx == |y.found| && score == y.score && inGap == y.inGap && consecutive == y.run
        && firstBonus == y.firstBonus && prevCharClass == y.prevClass
        && (withPos ==> found == FzfBacktrace.Elements(y.found))
    {
      ghost var y := TallyTo(u, text, t, pattern, sidx, idx);
      var rune := FoldV1(u, cs, nz, text[idx]);
      var charClass := ClassOf(u, text[idx]);
      assert TallyTo(u, text, t, pattern, sidx, idx + 1) == Count(y, t[idx], charClass, pattern, idx);
      if pidx < |pattern| && rune == pattern[pidx] {
        if withPos {
          found := found + {idx};
        }
        score := score + SCORE_MATCH;
        var bonus := BonusFor(prevCharClass, charClass);
        if consecutive == 0 {
          firstBonus := bonus;
        } else {
          if bonus == BONUS_BOUNDARY {
            firstBonus := bonus;
          }
          bonus := Max(Max(bonus, firstBonus), BONUS_CONSECUTIVE);
        }
        score := score + if pidx == 0 then 2 * bonus else bonus;
        inGap, consecutive, pidx := false, consecutive + 1, pidx + 1;
      } else {
        score := score + if inGap then SCORE_GAP_EXTENSION else SCORE_GAP_START;
        inGap, consecutive, firstBonus := true, 0, 0;
      }
      prevCharClass := charClass;
    }
    pos := if withPos then Some(found) else None;
  }
}
