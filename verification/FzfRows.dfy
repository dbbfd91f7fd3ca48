/** The row loop of `fuzzyMatchV2`: rows 1 to M-1 of the score and run tables, laid out one after the other in
    two views and computed from the row before (src/utils/scripts/fzf.js:515-571). */
module FzfRows {
  import opened FzfRunes
  import opened Alignments
  import opened FzfSlab
  import opened FzfTables

  /** The entry for text position `j` of the row that starts `base` cells after position 0 would. */
  function EntryAt(s: seq<int>, base: int, j: int): int {
    if 0 <= base + j < |s| then s[base + j] else 0
  }

  /** The stored row holds cells `[f[i], to)` of table row `i`. */
  ghost predicate RowDone(hs: seq<int>, rs: seq<int>, q: Table, base: int, i: nat, to: nat)
    requires q.Valid() && i < |q.p| && to <= |q.t|
  {
    match q
    case Table(t, b, p, f) =>
      && 0 <= base + f[i] && base + to <= |hs| == |rs|
      && forall j {:trigger EntryAt(hs, base, j)} {:trigger EntryAt(rs, base, j)} :: f[i] <= j < to ==>
           EntryAt(hs, base, j) == Cell(q, i, j).score && EntryAt(rs, base, j) == Cell(q, i, j).run
  }

  /** Rows survive stores behind them. */
  lemma RowSurvives(hs: seq<int>, rs: seq<int>, hs': seq<int>, rs': seq<int>, q: Table, base: int, i: nat, to: nat,
                    end: nat)
    requires q.Valid() && i < |q.p| && to <= |q.t| && RowDone(hs, rs, q, base, i, to)
    requires base + to <= end <= |hs| == |rs| == |hs'| == |rs'| && hs[..end] == hs'[..end] && rs[..end] == rs'[..end]
    ensures RowDone(hs', rs', q, base, i, to)
  {
    hide Cell, IsGreedy;
    forall j | q.f[i] <= j < to
      ensures EntryAt(hs', base, j) == EntryAt(hs, base, j) && EntryAt(rs', base, j) == EntryAt(rs, base, j)
    {
      assert hs[..end][base + j] == hs'[..end][base + j];
      assert rs[..end][base + j] == rs'[..end][base + j];
    }
  }

  lemma RowDoneStep(hs: seq<int>, rs: seq<int>, q: Table, base: int, i: nat, j: nat)
    requires q.Valid() && i < |q.p| && q.f[i] <= j < |q.t| && RowDone(hs, rs, q, base, i, j) && base + j < |hs|
    ensures RowDone(hs[base + j := Cell(q, i, j).score], rs[base + j := Cell(q, i, j).run], q, base, i, j + 1)
  {
    hide Cell, IsGreedy;
    var hs', rs' := hs[base + j := Cell(q, i, j).score], rs[base + j := Cell(q, i, j).run];
    forall k | q.f[i] <= k < j + 1
      ensures EntryAt(hs', base, k) == Cell(q, i, k).score && EntryAt(rs', base, k) == Cell(q, i, k).run
    {
      assert k < j ==> EntryAt(hs', base, k) == EntryAt(hs, base, k) && EntryAt(rs', base, k) == EntryAt(rs, base, k);
    }
  }

  /** The value to the left of column `j` in table row `i`. */
  ghost function LeftCell(q: Table, i: nat, j: nat): CellValue
    requires q.Valid() && i < |q.p| && q.f[i] <= j <= |q.t|
  {
    if j == q.f[i] then CellValue(0, 0, false) else Cell(q, i, j - 1)
  }

  /** The best of the last row so far, or zero before its first column. */
  ghost predicate BestSoFar(q: Table, forward: bool, j: nat, score: int, pos: nat)
    requires q.Valid() && j <= |q.t|
  {
    match q
    case Table(t, b, p, f) =>
      if j <= f[|p| - 1] then score == 0 else IsBest(q, forward, j, score, pos)
  }

  lemma BestSoFarStep(q: Table, forward: bool, j: nat, score: int, pos: nat)
    requires q.Valid() && q.f[|q.p| - 1] <= j < |q.t| && BestSoFar(q, forward, j, score, pos)
    ensures var s := Cell(q, |q.p| - 1, j).score;
      var better := (forward && s > score) || (!forward && s >= score);
      BestSoFar(q, forward, j + 1, if better then s else score, if better then j else pos)
  {
  }

  /** One cell from its stored neighbours: `at` is its place in the tables, one row is `width` cells. */
  method ScoreCell(ghost b: seq<int>, j: nat, match': bool, inGap: bool, at: nat, width: nat, B: View, H: View, C: View,
                   ghost from: nat, ghost left: CellValue, ghost diag: CellValue)
    returns (score: int, run: int, gap: bool)
    requires B.Valid() && H.Valid() && C.Valid() && B.len == |b| && width < at < H.len == C.len
    requires j < |b| && 0 <= diag.run <= j - from && B.Cells()[from..] == b[from..]
    requires H.Cells()[at - 1] == left.score && inGap == left.gap
    requires H.Cells()[at - 1 - width] == diag.score && C.Cells()[at - 1 - width] == diag.run
    ensures CellValue(score, run, gap) == Step(b, match', j, left, diag)
  {
    hide View.Cells;
    var leftScore := H.At(at - 1);
    var s2 := leftScore + Penalty(inGap);
    var s1 := 0;
    run := 0;
    if match' {
      var diagScore := H.At(at - 1 - width);
      s1 := diagScore + SCORE_MATCH;
      var plain := B.At(j);
      assert plain == B.Cells()[from..][j - from] == b[j];
      var bonus := plain;
      var diagRun := C.At(at - 1 - width);
      run := diagRun + 1;
      if bonus == BONUS_BOUNDARY {
        run := 1;
      } else if run > 1 {
        var start := B.At(j - run + 1);
        assert start == B.Cells()[from..][j - run + 1 - from] == b[j - run + 1];
        bonus := Max(bonus, Max(BONUS_CONSECUTIVE, start));
      }
      if s1 + bonus < s2 {
        s1 := s1 + plain;
        run := 0;
      } else {
        s1 := s1 + bonus;
      }
    }
    gap := s1 < s2;
    score := Max(Max(s1, s2), 0);
  }

  /** What `ScoreCell` computes is the cell of the table. */
  lemma StepIsCell(q: Table, i: nat, j: nat)
    requires q.Valid() && 0 < i < |q.p| && q.f[i] <= j < |q.t|
    ensures q.f[i - 1] <= j - 1 && 0 <= Cell(q, i - 1, j - 1).run <= j - q.f[0]
    ensures Step(q.b, q.t[j] == q.p[i], j, LeftCell(q, i, j), Cell(q, i - 1, j - 1)) == Cell(q, i, j)
    ensures 0 <= Cell(q, i, j).score <= ScoreCap(i + 1) && 0 <= Cell(q, i, j).run <= i + 1
  {
    IncreasingAbove(q.f, i);
  }

  /** The views of the row loop. */
  datatype Rows = Rows(T: View, B: View, F: View, H: View, C: View) {
    ghost predicate Valid(n: nat, m: nat, size: nat) {
      && Views(T, B, F, H, C).Apart()
      && T.len == B.len == n && F.len == m && H.len == C.len == size
    }
  }

  /** The row loop's local variables. */
  datatype RowCursor = RowCursor(inGap: bool, best: int, bestPos: nat)

  /** Where a row lies: it starts at cell `row`, every row has `width` cells, its first column is position `f0`. */
  datatype Window = Window(row: nat, width: nat, f0: nat, lastIdx: nat) {
    predicate Fits(q: Table, i: nat, size: nat)
      requires 0 < i < |q.f|
    {
      && width == lastIdx - f0 + 1 && width <= row && row + width <= size
      && f0 == q.f[0] && f0 + i <= q.f[i] <= lastIdx < |q.t|
    }
  }

  /** What holds before column `j` of row `i` is computed. */
  ghost predicate RowInv(hs: seq<int>, rs: seq<int>, q: Table, forward: bool, i: nat, j: nat, w: Window, c: RowCursor,
                         c0: RowCursor)
    requires q.Valid() && 0 < i < |q.p| && |hs| == |rs| && w.Fits(q, i, |hs|) && q.f[i] <= j <= w.lastIdx + 1
  {
    match c
    case RowCursor(inGap, best, bestPos) =>
      && RowDone(hs, rs, q, w.row - w.width - w.f0, i - 1, w.lastIdx + 1)
      && RowDone(hs, rs, q, w.row - w.f0, i, j)
      && inGap == LeftCell(q, i, j).gap && hs[w.row + j - w.f0 - 1] == LeftCell(q, i, j).score
      && if i == |q.p| - 1 then BestSoFar(q, forward, j, best, bestPos) else best == c0.best && bestPos == c0.bestPos
  }

  /** The stored neighbours of column `j`. */
  lemma Neighbours(hs: seq<int>, rs: seq<int>, q: Table, forward: bool, i: nat, j: nat, w: Window, c: RowCursor,
                   c0: RowCursor)
    requires q.Valid() && 0 < i < |q.p| && |hs| == |rs| && w.Fits(q, i, |hs|) && q.f[i] <= j <= w.lastIdx
    requires RowInv(hs, rs, q, forward, i, j, w, c, c0)
    ensures q.f[i - 1] <= j - 1
    ensures c.inGap == LeftCell(q, i, j).gap && hs[w.row + j - w.f0 - 1] == LeftCell(q, i, j).score
    ensures hs[w.row + j - w.f0 - 1 - w.width] == Cell(q, i - 1, j - 1).score
    ensures rs[w.row + j - w.f0 - 1 - w.width] == Cell(q, i - 1, j - 1).run
  {
    hide Cell, BestSoFar;
    var base := w.row - w.width - w.f0;
    assert EntryAt(hs, base, j - 1) == Cell(q, i - 1, j - 1).score;
    assert EntryAt(rs, base, j - 1) == Cell(q, i - 1, j - 1).run;
  }

  /** One column later the invariant holds again. */
  lemma RowInvStep(hs: seq<int>, rs: seq<int>, q: Table, forward: bool, i: nat, j: nat, w: Window, c: RowCursor,
                   c0: RowCursor)
    requires q.Valid() && 0 < i < |q.p| && |hs| == |rs| && w.Fits(q, i, |hs|) && q.f[i] <= j <= w.lastIdx
    requires RowInv(hs, rs, q, forward, i, j, w, c, c0)
    ensures
      var s := Cell(q, i, j);
      var at := w.row + j - w.f0;
      var better := i == |q.p| - 1 && ((forward && s.score > c.best) || (!forward && s.score >= c.best));
      RowInv(hs[at := s.score], rs[at := s.run], q, forward, i, j + 1, w,
             RowCursor(s.gap, if better then s.score else c.best, if better then j else c.bestPos), c0)
  {
    hide Cell, BestSoFar, RowDone;
    var s, at := Cell(q, i, j), w.row + j - w.f0;
    RowSurvives(hs, rs, hs[at := s.score], rs[at := s.run], q, w.row - w.width - w.f0, i - 1, w.lastIdx + 1, w.row);
    RowDoneStep(hs, rs, q, w.row - w.f0, i, j);
    if i == |q.p| - 1 {
      BestSoFarStep(q, forward, j, c.best, c.bestPos);
    }
  }

  /** The body of the column loop. */
  method FillColumn(ghost q: Table, forward: bool, last: bool, ghost i: nat, j: nat, w: Window, pchar: Rune, s: Rows,
                    c: RowCursor, ghost c0: RowCursor)
    returns (c': RowCursor)
    requires q.Valid() && 0 < i < |q.p| && s.Valid(|q.t|, |q.p|, s.H.len) && w.Fits(q, i, s.H.len)
      && q.f[i] <= j <= w.lastIdx
    requires last == (i == |q.p| - 1) && ScoreCap(|q.p|) < 0x8000 && pchar == q.p[i]
    requires s.T.Cells()[w.f0..] == q.t[w.f0..] && s.B.Cells()[w.f0..] == q.b[w.f0..]
    requires RowInv(s.H.Cells(), s.C.Cells(), q, forward, i, j, w, c, c0)
    modifies s.H.buf, s.C.buf
    ensures RowInv(s.H.Cells(), s.C.Cells(), q, forward, i, j + 1, w, c', c0)
    ensures s.H.Cells()[..w.row] == old(s.H.Cells())[..w.row] && s.C.Cells()[..w.row] == old(s.C.Cells())[..w.row]
    ensures s.T.Cells() == old(s.T.Cells()) && s.B.Cells() == old(s.B.Cells()) && s.F.Cells() == old(s.F.Cells())
  {
    hide View.Cells, Cell, IsGreedy, RowInv, Step, LeftCell;
    ghost var hs, rs := s.H.Cells(), s.C.Cells();
    Neighbours(hs, rs, q, forward, i, j, w, c, c0);
    StepIsCell(q, i, j);
    RowInvStep(hs, rs, q, forward, i, j, w, c, c0);
    var ch := s.T.At(j);
    assert ch == s.T.Cells()[w.f0..][j - w.f0] == q.t[j];
    var at := w.row + j - w.f0;
    var score, run, gap :=
      ScoreCell(q.b, j, ch == pchar, c.inGap, at, w.width, s.B, s.H, s.C, w.f0, LeftCell(q, i, j),
                Cell(q, i - 1, j - 1));
    s.C.Put16(at, run, s.H, s.T, s.B, s.F, s.F);
    s.H.Put16(at, score, s.C, s.T, s.B, s.F, s.F);
    c' := if last && ((forward && score > c.best) || (!forward && score >= c.best)) then RowCursor(gap, score, j)
          else RowCursor(gap, c.best, c.bestPos);
  }

  method FillRow(ghost q: Table, forward: bool, last: bool, ghost i: nat, f: nat, w: Window, pchar: Rune, s: Rows,
                 best: int, bestPos: nat)
    returns (best': int, bestPos': nat)
    requires q.Valid() && 0 < i < |q.p| && f == q.f[i] && s.Valid(|q.t|, |q.p|, s.H.len) && w.Fits(q, i, s.H.len)
    requires last == (i == |q.p| - 1) && ScoreCap(|q.p|) < 0x8000 && pchar == q.p[i]
    requires s.T.Cells()[w.f0..] == q.t[w.f0..] && s.B.Cells()[w.f0..] == q.b[w.f0..]
    requires RowDone(s.H.Cells(), s.C.Cells(), q, w.row - w.width - w.f0, i - 1, w.lastIdx + 1)
    requires last ==> best == 0
    modifies s.H.buf, s.C.buf
    ensures RowDone(s.H.Cells(), s.C.Cells(), q, w.row - w.f0, i, w.lastIdx + 1)
    ensures s.H.Cells()[..w.row] == old(s.H.Cells())[..w.row] && s.C.Cells()[..w.row] == old(s.C.Cells())[..w.row]
    ensures s.T.Cells() == old(s.T.Cells()) && s.B.Cells() == old(s.B.Cells()) && s.F.Cells() == old(s.F.Cells())
    ensures if last then IsBest(q, forward, w.lastIdx + 1, best', bestPos') else best' == best && bestPos' == bestPos
  {
    hide View.Cells, Cell, IsGreedy, ScoreCap;
    ghost var hs0, rs0 := s.H.Cells(), s.C.Cells();
    s.H.Put16(w.row + f - w.f0 - 1, 0, s.C, s.T, s.B, s.F, s.F);
    RowSurvives(hs0, rs0, s.H.Cells(), s.C.Cells(), q, w.row - w.width - w.f0, i - 1, w.lastIdx + 1, w.row);
    var c := RowCursor(false, best, bestPos);
    ghost var c0 := c;
    for j := f to w.lastIdx + 1
      invariant RowInv(s.H.Cells(), s.C.Cells(), q, forward, i, j, w, c, c0)
      invariant s.T.Cells() == old(s.T.Cells()) && s.B.Cells() == old(s.B.Cells()) && s.F.Cells() == old(s.F.Cells())
      invariant s.H.Cells()[..w.row] == hs0[..w.row] && s.C.Cells()[..w.row] == rs0[..w.row]
    {
      c := FillColumn(q, forward, last, i, j, w, pchar, s, c, c0);
    }
    best', bestPos' := c.best, c.bestPos;
  }
}
