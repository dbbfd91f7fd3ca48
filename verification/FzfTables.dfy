/** The scoring tables of `fuzzyMatchV2` as a plain recursive definition, with no slab, no window and no
    mutable row (src/utils/scripts/fzf.js:442-571), and what the backtrace may rely on. */
module FzfTables {
  import opened FzfRunes
  import opened Alignments

  /** One table cell: the score, the length of the run of consecutive matches, and whether a gap is open. */
  datatype CellValue = CellValue(score: int, run: int, gap: bool)

  /** What a table is about: folded text, bonus of every position, pattern, and the greedy first positions. */
  datatype Table = Table(t: seq<Rune>, b: seq<int>, p: seq<Rune>, f: seq<nat>) {
    predicate BonusesOk() {
      forall j :: 0 <= j < |b| ==> 0 <= b[j] <= BONUS_BOUNDARY
    }

    ghost predicate Valid() {
      && |b| == |t| && BonusesOk()
      && 0 < |p| == |f|
      && IsGreedy(f, t, p)
    }
  }

  function Penalty(gap: bool): int {
    if gap then SCORE_GAP_EXTENSION else SCORE_GAP_START
  }

  /** The first row, defined for every position: before the first occurrence of `c` it is zero. */
  function Row0(t: seq<Rune>, b: seq<int>, c: Rune, j: nat): CellValue
    requires j < |t| == |b|
    decreases j
  {
    if t[j] == c then CellValue(FirstMatchScore(b[j]), 1, false)
    else
      var left := if j == 0 then CellValue(0, 0, false) else Row0(t, b, c, j - 1);
      CellValue(Max(left.score + Penalty(left.gap), 0), 0, true)
  }

  lemma {:induction false} Row0Bounds(q: Table, j: nat)
    requires j < |q.t| == |q.b| && q.BonusesOk() && q.p != []
    ensures 0 <= Row0(q.t, q.b, q.p[0], j).score <= ScoreCap(1)
    ensures 0 <= Row0(q.t, q.b, q.p[0], j).run <= 1
  {
    if j > 0 {
      Row0Bounds(q, j - 1);
    }
  }

  lemma {:induction false} Row0BeforeFirst(t: seq<Rune>, b: seq<int>, c: Rune, j: nat)
    requires j < |t| == |b|
    requires Absent(c, t, 0, j + 1)
    ensures Row0(t, b, c, j).score == 0
  {
    if j > 0 {
      Row0BeforeFirst(t, b, c, j - 1);
    }
  }

  /** How one cell of a later row follows from its left and diagonal neighbours. */
  function Step(b: seq<int>, match': bool, j: nat, left: CellValue, diag: CellValue): (r: CellValue)
    requires j < |b| && 0 <= diag.run <= j
  {
    var s2 := left.score + Penalty(left.gap);
    if match' then
      var run := if b[j] == BONUS_BOUNDARY then 1 else diag.run + 1;
      var bonus := if run > 1 then Max(b[j], Max(BONUS_CONSECUTIVE, b[j - run + 1])) else b[j];
      var s1 := diag.score + SCORE_MATCH;
      if s1 + bonus < s2 then
        CellValue(Max(Max(s1 + b[j], s2), 0), 0, s1 + b[j] < s2)
      else
        CellValue(Max(Max(s1 + bonus, s2), 0), run, s1 + bonus < s2)
    else
      CellValue(Max(Max(0, s2), 0), 0, 0 < s2)
  }

  /** The cell for pattern index `i` at text position `j`. */
  ghost function Cell(q: Table, i: nat, j: nat): (r: CellValue)
    requires q.Valid() && i < |q.p| && q.f[i] <= j < |q.t|
    ensures 0 <= r.score <= ScoreCap(i + 1) && 0 <= r.run <= i + 1
    decreases i, j
  {
    if i == 0 then
      Row0Bounds(q, j);
      Row0(q.t, q.b, q.p[0], j)
    else
      assert q.f[i - 1] <= j - 1;
      var left := if j == q.f[i] then CellValue(0, 0, false) else Cell(q, i, j - 1);
      var diag := Cell(q, i - 1, j - 1);
      IncreasingAbove(q.f, i);
      Step(q.b, q.t[j] == q.p[i], j, left, diag)
  }

  ghost function Score(q: Table, i: nat, j: nat): int
    requires q.Valid() && i < |q.p| && q.f[i] <= j < |q.t|
  {
    Cell(q, i, j).score
  }

  /** A cell on a match gains at least the match score over its diagonal neighbour. */
  lemma MatchGains(q: Table, i: nat, j: nat)
    requires q.Valid() && i < |q.p| && q.f[i] <= j < |q.t| && q.t[j] == q.p[i]
    ensures i > 0 ==> q.f[i - 1] <= j - 1
    ensures Score(q, i, j) >= (if i == 0 then 0 else Score(q, i - 1, j - 1)) + SCORE_MATCH
  {
  }

  /** A cell off a match is zero or falls below its left neighbour. */
  lemma MissLoses(q: Table, i: nat, j: nat)
    requires q.Valid() && i < |q.p| && q.f[i] <= j < |q.t| && q.t[j] != q.p[i]
    ensures j > q.f[i]
    ensures Score(q, i, j) == 0 || Score(q, i, j) < Score(q, i, j - 1)
  {
  }

  /** `score` is the greatest of the last row over `[f[M-1], to)`, first met there in scan direction. */
  ghost predicate IsBest(q: Table, forward: bool, to: nat, score: int, pos: nat)
    requires q.Valid() && to <= |q.t|
  {
    var m := |q.p| - 1;
    && q.f[m] <= pos < to
    && score == Score(q, m, pos)
    && forall j :: q.f[m] <= j < to ==>
         && Score(q, m, j) <= score
         && (forward && j < pos ==> Score(q, m, j) < score)
         && (!forward && j > pos ==> Score(q, m, j) < score)
  }

  lemma BestIsPositive(q: Table, forward: bool, to: nat, score: int, pos: nat)
    requires q.Valid() && to <= |q.t| && IsBest(q, forward, to, score, pos)
    ensures score >= SCORE_MATCH
  {
    MatchGains(q, |q.p| - 1, q.f[|q.p| - 1]);
  }

  /** Behind the last occurrence of the last pattern rune the row only falls, so the window misses nothing. */
  lemma {:induction false} BestSurvivesTail(q: Table, forward: bool, to: nat, score: int, pos: nat, end: nat)
    requires q.Valid() && to <= end <= |q.t| && IsBest(q, forward, to, score, pos)
    requires Absent(q.p[|q.p| - 1], q.t, to, |q.t|)
    ensures IsBest(q, forward, end, score, pos)
  {
    if to < end {
      BestSurvivesTail(q, forward, to, score, pos, end - 1);
      BestIsPositive(q, forward, to, score, pos);
      MissLoses(q, |q.p| - 1, end - 1);
    }
  }

  // --- Decisions of the backtrace ---

  ghost function DiagonalScore(q: Table, i: nat, j: nat): int
    requires q.Valid() && i < |q.p| && q.f[i] <= j < |q.t|
  {
    if i > 0 then
      assert q.f[i - 1] <= j - 1;
      Score(q, i - 1, j - 1)
    else 0
  }

  ghost function LeftScore(q: Table, i: nat, j: nat): int
    requires q.Valid() && i < |q.p| && q.f[i] <= j < |q.t|
  {
    if j > q.f[i] then Score(q, i, j - 1) else 0
  }

  /** Whether the backtrace takes position `j` for pattern index `i`. */
  ghost predicate Takes(q: Table, i: nat, j: nat, preferMatch: bool)
    requires q.Valid() && i < |q.p| && q.f[i] <= j < |q.t|
  {
    var s := Score(q, i, j);
    s > DiagonalScore(q, i, j) && (s > LeftScore(q, i, j) || (s == LeftScore(q, i, j) && preferMatch))
  }

  /** Only matching positions are taken, whatever the preference says. */
  lemma TakenMatches(q: Table, i: nat, j: nat, preferMatch: bool)
    requires q.Valid() && i < |q.p| && q.f[i] <= j < |q.t| && Takes(q, i, j, preferMatch)
    ensures q.t[j] == q.p[i]
  {
  }

  /** The backtrace cannot fall off the left end of a row. */
  lemma FirstIsTaken(q: Table, i: nat, preferMatch: bool)
    requires q.Valid() && i < |q.p|
    ensures Takes(q, i, q.f[i], preferMatch)
  {
  }

  /** The best cell of the last row is itself taken, so the match ends there. */
  lemma BestIsTaken(q: Table, forward: bool, to: nat, score: int, pos: nat)
    requires q.Valid() && to <= |q.t| && IsBest(q, forward, to, score, pos)
    ensures Takes(q, |q.p| - 1, pos, true)
  {
    var m := |q.p| - 1;
    BestIsPositive(q, forward, to, score, pos);
    assert pos > q.f[m] ==> Score(q, m, pos - 1) <= score;
    if q.t[pos] == q.p[m] {
      MatchGains(q, m, pos);
    } else {
      MissLoses(q, m, pos);
    }
  }
}
