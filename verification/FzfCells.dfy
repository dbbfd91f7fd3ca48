/** What the cells of the V2 table score, in plain numbers (src/utils/scripts/fzf.js:476-497, 534-570). */
module FzfCells {
  import opened FzfRunes
  import opened Alignments
  import opened FzfTables

  /** The length of the run of consecutive matches a cell ends; 0 if it is no match, or one that is beaten from the
      left. */
  ghost function Run(q: Table, i: nat, j: nat): int
    requires q.Valid() && i < |q.p| && q.f[i] <= j < |q.t|
  {
    Cell(q, i, j).run
  }

  /** The score of a cell is carried on from a match further left. */
  ghost predicate GapOpen(q: Table, i: nat, j: nat)
    requires q.Valid() && i < |q.p| && q.f[i] <= j < |q.t|
  {
    Cell(q, i, j).gap
  }

  // --- The first row ---

  /** Behind a match the first row loses 3 points and then one more with every position, until nothing is left. */
  lemma {:induction false} FirstRowFalls(q: Table, j: nat, k: nat)
    requires q.Valid() && k <= j < |q.t| && q.t[k] == q.p[0] && Absent(q.p[0], q.t, k + 1, j + 1)
    ensures q.f[0] <= k
    ensures var left := 16 + 2 * q.b[k] - if j == k then 0 else 3 + (j - k - 1);
      && Score(q, 0, j) == (if left > 0 then left else 0)
      && (j == k ==> Run(q, 0, j) == 1 && !GapOpen(q, 0, j)) && (j > k ==> Run(q, 0, j) == 0 && GapOpen(q, 0, j))
    decreases j
  {
    TightAt(q.f, q.t, q.p, 0);
    if k < j {
      FirstRowFalls(q, j - 1, k);
    }
  }

  // --- Later rows ---

  /** What a cell gets from its left neighbour: one point less than that if a gap is open there, and 3 less if not. */
  ghost function Offer(q: Table, i: nat, j: nat): int
    requires q.Valid() && i < |q.p| && q.f[i] <= j < |q.t|
  {
    if j == q.f[i] then -3 else Score(q, i, j - 1) - if GapOpen(q, i, j - 1) then 1 else 3
  }

  /** What a match adds to its diagonal neighbour: 16 and its bonus. Within a run that is at least 4, and at least the
      bonus of the run's first position. */
  ghost function Gain(q: Table, j: nat, run: int): int
    requires q.Valid() && 0 < run <= j + 1 && j < |q.t|
  {
    var first := q.b[j - run + 1];
    16 + if run == 1 then q.b[j] else if q.b[j] >= 4 && q.b[j] >= first then q.b[j] else if first >= 4 then first else 4
  }

  /** A match gains that unless it is beaten from the left. A boundary starts a new run. */
  lemma MatchScores(q: Table, i: nat, j: nat)
    requires q.Valid() && 0 < i < |q.p| && q.f[i] <= j < |q.t| && q.t[j] == q.p[i]
    ensures q.f[i - 1] <= j - 1 && 0 <= Run(q, i - 1, j - 1) <= j
    ensures var run := if q.b[j] == 8 then 1 else Run(q, i - 1, j - 1) + 1;
      var gained := Score(q, i - 1, j - 1) + Gain(q, j, run);
      if gained >= Offer(q, i, j) then Score(q, i, j) == gained && Run(q, i, j) == run && !GapOpen(q, i, j)
      else Score(q, i, j) == Offer(q, i, j) && Run(q, i, j) == 0 && GapOpen(q, i, j)
  {
    IncreasingAbove(q.f, i);
  }

  lemma MissScores(q: Table, i: nat, j: nat)
    requires q.Valid() && 0 < i < |q.p| && q.f[i] <= j < |q.t| && q.t[j] != q.p[i]
    ensures Score(q, i, j) == (if Offer(q, i, j) > 0 then Offer(q, i, j) else 0)
    ensures Run(q, i, j) == 0 && (GapOpen(q, i, j) <==> Offer(q, i, j) > 0)
  {
  }

  /** Behind its last match a row loses one point with every position if a gap is open there, and 3 for the first one
      if not, until nothing is left. */
  lemma {:induction false} RowFalls(q: Table, i: nat, j: nat, k: nat)
    requires q.Valid() && 0 < i < |q.p| && q.f[i] <= k <= j < |q.t| && Absent(q.p[i], q.t, k + 1, j + 1)
    ensures var left := Score(q, i, k) - if j == k then 0 else if GapOpen(q, i, k) then j - k else 3 + (j - k - 1);
      Score(q, i, j) == if left > 0 then left else 0
    ensures j > k && Score(q, i, j) > 0 ==> GapOpen(q, i, j)
    decreases j
  {
    hide Cell;
    if k < j {
      RowFalls(q, i, j - 1, k);
      MissScores(q, i, j);
    }
  }

  /** So wherever a match stands, the row falls from it until the next one stands, also over matches that do not. */
  lemma {:induction false} RowFallsFrom(q: Table, i: nat, j: nat, k: nat)
    requires q.Valid() && 0 < i < |q.p| && q.f[i] <= k <= j < |q.t| && Run(q, i, k) > 0
    requires forall l :: k < l <= j ==> Run(q, i, l) == 0
    ensures var left := Score(q, i, k) - if j == k then 0 else 3 + (j - k - 1);
      Score(q, i, j) == if left > 0 then left else 0
    ensures if j == k then !GapOpen(q, i, j) else Score(q, i, j) > 0 ==> GapOpen(q, i, j)
    decreases j
  {
    hide Cell;
    if k < j {
      RowFallsFrom(q, i, j - 1, k);
    }
    if q.t[j] == q.p[i] {
      MatchScores(q, i, j);
    } else {
      MissScores(q, i, j);
    }
  }

  lemma FirstRowRuns(q: Table, j: nat)
    requires q.Valid() && q.f[0] <= j < |q.t|
    ensures Run(q, 0, j) == if q.t[j] == q.p[0] then 1 else 0
  {
  }

  lemma LaterRowRuns(q: Table, i: nat, j: nat)
    requires q.Valid() && 0 < i < |q.p| && q.f[i] <= j < |q.t| && Run(q, i, j) > 0
    ensures q.t[j] == q.p[i] && q.f[i - 1] <= j - 1
    ensures Run(q, i, j) == if q.b[j] == 8 then 1 else Run(q, i - 1, j - 1) + 1
  {
    hide Cell;
    if q.t[j] == q.p[i] {
      MatchScores(q, i, j);
    } else {
      MissScores(q, i, j);
    }
  }

  /** A run matches pattern and text rune by rune, and no boundary is in it but at its start. */
  lemma {:induction false} RunMatches(q: Table, i: nat, j: nat, d: nat)
    requires q.Valid() && i < |q.p| && q.f[i] <= j < |q.t| && d < Run(q, i, j)
    ensures d <= i && d <= j && q.f[i - d] <= j - d && q.t[j - d] == q.p[i - d]
    ensures Run(q, i - d, j - d) == Run(q, i, j) - d && (d + 1 < Run(q, i, j) ==> q.b[j - d] != 8)
    decreases d
  {
    hide Cell;
    if i == 0 {
      FirstRowRuns(q, j);
    } else {
      LaterRowRuns(q, i, j);
    }
    if d > 0 {
      RunMatches(q, i - 1, j - 1, d - 1);
    }
  }

  /** The best cell of the last row is a match that stands. */
  lemma BestStands(q: Table, forward: bool, to: nat, score: int, pos: nat)
    requires q.Valid() && to <= |q.t| && IsBest(q, forward, to, score, pos)
    ensures Run(q, |q.p| - 1, pos) > 0
  {
    hide Cell;
    var m := |q.p| - 1;
    BestIsTaken(q, forward, to, score, pos);
    TakenMatches(q, m, pos, true);
    if m == 0 {
      FirstRowFalls(q, pos, pos);
    } else {
      MatchScores(q, m, pos);
      MatchGains(q, m, pos);
      assert pos > q.f[m] ==> Score(q, m, pos - 1) <= score;
    }
  }

  lemma OneGapTable(q: Table)
    requires q == Table([97, 120, 98], [8, 0, 0], [97, 98], [0, 2])
    ensures q.Valid()
  {
    GreedyNothing(q.t, q.p);
    GreedyExtend([], q.t, q.p, 0);
    GreedyExtend([0], q.t, q.p, 2);
    assert [] + [0] == [0] && [0] + [2] == [0, 2];
  }

  /** An input: "ab" in "axb" scores 32 for the start of a word, less 3 for the gap, and 16. */
  lemma OneGap()
    ensures var q := Table([97, 120, 98], [8, 0, 0], [97, 98], [0, 2]);
      q.Valid() && IsBest(q, true, 3, 45, 2)
  {
    hide Cell, Tight, IsGreedy, Table.Valid;
    var q := Table([97, 120, 98], [8, 0, 0], [97, 98], [0, 2]);
    OneGapTable(q);
    FirstRowFalls(q, 1, 0);
    MatchScores(q, 1, 2);
  }
}
